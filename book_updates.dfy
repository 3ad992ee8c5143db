/** What `update_records` does to one matched record, as functions of the
    record's state before the update: scalar fields are overwritten, each
    requested entry of a multi-valued field is replaced, and the entries
    named by `delete…` arguments are removed. */
module BookUpdates {
  import opened Wrappers
  import opened Dicts
  import opened Records
  import opened BookParsing

  /** `record.fields[field] = value` for every field to update, in order. */
  function ApplyFieldUpdates(fields: map<string, string>, updates: Dict<string>): map<string, string> {
    if |updates| == 0 then fields
    else
      var last := updates[|updates| - 1];
      ApplyFieldUpdates(fields, updates[..|updates| - 1])[last.0 := last.1]
  }

  /** The entry `toReplace` of field `name` gives way to `newValue`; an empty
      `toReplace` stands for `newValue` itself. The entry map is created when
      the record has none yet (`setdefault`). */
  function ReplaceEntry(m: map<string, Dict<string>>, name: string, toReplace: string, newValue: string): map<string, Dict<string>> {
    var key := if toReplace == "" then newValue else toReplace;
    WithEntryAdded(WithEntryDeleted(m, name, key), name, newValue)
  }

  function ReplaceEntries(m: map<string, Dict<string>>, name: string, pairs: Dict<string>): map<string, Dict<string>> {
    if |pairs| == 0 then m
    else
      var last := pairs[|pairs| - 1];
      ReplaceEntry(ReplaceEntries(m, name, pairs[..|pairs| - 1]), name, last.0, last.1)
  }

  /** Every replacement requested, field by field. */
  function ApplyMultiUpdates(m: map<string, Dict<string>>, changes: EntryChanges): map<string, Dict<string>> {
    if |changes| == 0 then m
    else
      var last := changes[|changes| - 1];
      ReplaceEntries(ApplyMultiUpdates(m, changes[..|changes| - 1]), last.0, last.1)
  }

  /** `pop(value, None)` for every value (the keys of `values`). */
  function DeleteEntries(m: map<string, Dict<string>>, name: string, values: Dict<string>): map<string, Dict<string>> {
    if |values| == 0 then m
    else WithEntryDeleted(DeleteEntries(m, name, values[..|values| - 1]), name, values[|values| - 1].0)
  }

  function ApplyMultiDeletes(m: map<string, Dict<string>>, deletes: EntryChanges): map<string, Dict<string>> {
    if |deletes| == 0 then m
    else
      var last := deletes[|deletes| - 1];
      DeleteEntries(ApplyMultiDeletes(m, deletes[..|deletes| - 1]), last.0, last.1)
  }

  /** The entries of a record after the replacements and then the deletions. */
  function UpdatedEntries(m: map<string, Dict<string>>, changes: EntryChanges, deletes: EntryChanges): map<string, Dict<string>> {
    ApplyMultiDeletes(ApplyMultiUpdates(m, changes), deletes)
  }

  // ----- properties -----

  /** The last value given for a field wins; fields not mentioned keep theirs. */
  lemma {:induction false} ApplyFieldUpdatesGet(fields: map<string, string>, updates: Dict<string>, f: string)
    ensures f in ApplyFieldUpdates(fields, updates) <==> f in fields || f in Keys(updates)
    ensures LastValue(updates, f).Some? ==>
      f in ApplyFieldUpdates(fields, updates) && ApplyFieldUpdates(fields, updates)[f] == LastValue(updates, f).value
    ensures LastValue(updates, f).None? && f in fields ==> ApplyFieldUpdates(fields, updates)[f] == fields[f]
  {
    if |updates| > 0 {
      var front := updates[..|updates| - 1];
      ApplyFieldUpdatesGet(fields, front, f);
      KeysOfFront(updates, f);
    }
  }

  /** One replacement: the new value is an entry mapped to itself, the
      replaced entry is gone unless it is the new value, every other entry
      and every other field are untouched, and no key appears twice. */
  lemma ReplaceEntryEffect(m: map<string, Dict<string>>, name: string, toReplace: string, newValue: string)
    requires DistinctKeys(EntriesOf(m, name))
    ensures var key := if toReplace == "" then newValue else toReplace;
      var after := EntriesOf(ReplaceEntry(m, name, toReplace, newValue), name);
      && DistinctKeys(after)
      && Get(after, newValue) == Some(newValue)
      && (key != newValue ==> !HasKey(after, key))
      && (forall k :: k != key && k != newValue ==> Get(after, k) == Get(EntriesOf(m, name), k))
    ensures forall other :: other != name ==>
      EntriesOf(ReplaceEntry(m, name, toReplace, newValue), other) == EntriesOf(m, other)
  {
    var key := if toReplace == "" then newValue else toReplace;
    var popped := Pop(EntriesOf(m, name), key);
    KeysPop(EntriesOf(m, name), key);
    PutKeepsDistinct(popped, newValue, newValue);
    GetPut(popped, newValue, newValue, newValue);
    forall k ensures Get(Put(popped, newValue, newValue), k) == if k == newValue then Some(newValue) else Get(popped, k) {
      GetPut(popped, newValue, newValue, k);
    }
    forall k ensures Get(popped, k) == if k == key then None else Get(EntriesOf(m, name), k) {
      GetPop(EntriesOf(m, name), key, k);
    }
    if key != newValue {
      GetSomeIffHasKey(Put(popped, newValue, newValue), key);
    }
  }

  lemma {:induction false} ReplaceEntriesKeepsDistinct(m: map<string, Dict<string>>, name: string, pairs: Dict<string>)
    requires EntryMapsDistinct(m)
    ensures EntryMapsDistinct(ReplaceEntries(m, name, pairs))
  {
    if |pairs| > 0 {
      var front := ReplaceEntries(m, name, pairs[..|pairs| - 1]);
      var last := pairs[|pairs| - 1];
      ReplaceEntriesKeepsDistinct(m, name, pairs[..|pairs| - 1]);
      ReplaceEntryEffect(front, name, last.0, last.1);
    }
  }

  /** Replacing entries keeps every entry map a genuine dict. */
  lemma {:induction false} ApplyMultiUpdatesKeepsDistinct(m: map<string, Dict<string>>, changes: EntryChanges)
    requires EntryMapsDistinct(m)
    ensures EntryMapsDistinct(ApplyMultiUpdates(m, changes))
  {
    if |changes| > 0 {
      var last := changes[|changes| - 1];
      ApplyMultiUpdatesKeepsDistinct(m, changes[..|changes| - 1]);
      ReplaceEntriesKeepsDistinct(ApplyMultiUpdates(m, changes[..|changes| - 1]), last.0, last.1);
    }
  }

  /** The last replacement of a field holds afterwards: its new value is an
      entry mapped to itself. */
  lemma ReplaceEntriesLastHolds(m: map<string, Dict<string>>, name: string, pairs: Dict<string>)
    requires EntryMapsDistinct(m) && |pairs| > 0
    ensures Get(EntriesOf(ReplaceEntries(m, name, pairs), name), pairs[|pairs| - 1].1) == Some(pairs[|pairs| - 1].1)
  {
    var last := pairs[|pairs| - 1];
    ReplaceEntriesKeepsDistinct(m, name, pairs[..|pairs| - 1]);
    ReplaceEntryEffect(ReplaceEntries(m, name, pairs[..|pairs| - 1]), name, last.0, last.1);
  }

  /** Deleting never adds an entry, removes every value asked for, touches
      only the field named and keeps the entry maps genuine dicts. */
  lemma {:induction false} DeleteEntriesEffect(m: map<string, Dict<string>>, name: string, values: Dict<string>)
    requires EntryMapsDistinct(m)
    ensures EntryMapsDistinct(DeleteEntries(m, name, values))
    ensures forall j :: 0 <= j < |values| ==> !HasKey(EntriesOf(DeleteEntries(m, name, values), name), values[j].0)
    ensures forall n, k :: HasKey(EntriesOf(DeleteEntries(m, name, values), n), k) ==> HasKey(EntriesOf(m, n), k)
    ensures forall other :: other != name ==> EntriesOf(DeleteEntries(m, name, values), other) == EntriesOf(m, other)
  {
    if |values| > 0 {
      var front := values[..|values| - 1];
      var before := DeleteEntries(m, name, front);
      var v := values[|values| - 1].0;
      DeleteEntriesEffect(m, name, front);
      KeysPop(EntriesOf(before, name), v);
      forall j | 0 <= j < |values| ensures !HasKey(EntriesOf(DeleteEntries(m, name, values), name), values[j].0) {
        if j < |values| - 1 {
          assert values[j] == front[j];
        }
      }
    }
  }

  /** After the deletions, no value any `delete…` argument named is an
      entry of its field, and nothing was added. */
  lemma {:induction false} ApplyMultiDeletesEffect(m: map<string, Dict<string>>, deletes: EntryChanges)
    requires EntryMapsDistinct(m)
    ensures EntryMapsDistinct(ApplyMultiDeletes(m, deletes))
    ensures forall i, j :: 0 <= i < |deletes| && 0 <= j < |deletes[i].1| ==>
      !HasKey(EntriesOf(ApplyMultiDeletes(m, deletes), deletes[i].0), deletes[i].1[j].0)
    ensures forall n, k :: HasKey(EntriesOf(ApplyMultiDeletes(m, deletes), n), k) ==> HasKey(EntriesOf(m, n), k)
  {
    if |deletes| > 0 {
      var front := deletes[..|deletes| - 1];
      var last := deletes[|deletes| - 1];
      var before := ApplyMultiDeletes(m, front);
      ApplyMultiDeletesEffect(m, front);
      DeleteEntriesEffect(before, last.0, last.1);
      forall i, j | 0 <= i < |deletes| && 0 <= j < |deletes[i].1|
        ensures !HasKey(EntriesOf(ApplyMultiDeletes(m, deletes), deletes[i].0), deletes[i].1[j].0)
      {
        if i < |deletes| - 1 {
          assert deletes[i] == front[i];
          assert !HasKey(EntriesOf(before, front[i].0), front[i].1[j].0);
        }
      }
    }
  }

  /** Deleting keeps every entry of the field that was not asked for, with
      its value. */
  lemma {:induction false} DeleteEntriesKeepsOthers(m: map<string, Dict<string>>, name: string, values: Dict<string>, k: string)
    requires EntryMapsDistinct(m)
    requires forall j :: 0 <= j < |values| ==> values[j].0 != k
    ensures Get(EntriesOf(DeleteEntries(m, name, values), name), k) == Get(EntriesOf(m, name), k)
  {
    if |values| > 0 {
      var front := values[..|values| - 1];
      var before := DeleteEntries(m, name, front);
      assert forall j :: 0 <= j < |front| ==> front[j] == values[j];
      DeleteEntriesKeepsOthers(m, name, front, k);
      DeleteEntriesEffect(m, name, front);
      GetPop(EntriesOf(before, name), values[|values| - 1].0, k);
    }
  }

  /** After the deletions, an entry that no `delete…` argument of its field
      named is still there, with its value. */
  lemma {:induction false} ApplyMultiDeletesKeepsOthers(m: map<string, Dict<string>>, deletes: EntryChanges, name: string, k: string)
    requires EntryMapsDistinct(m)
    requires forall i, j :: 0 <= i < |deletes| && deletes[i].0 == name && 0 <= j < |deletes[i].1| ==> deletes[i].1[j].0 != k
    ensures Get(EntriesOf(ApplyMultiDeletes(m, deletes), name), k) == Get(EntriesOf(m, name), k)
  {
    if |deletes| > 0 {
      var front := deletes[..|deletes| - 1];
      var last := deletes[|deletes| - 1];
      var before := ApplyMultiDeletes(m, front);
      assert forall i :: 0 <= i < |front| ==> front[i] == deletes[i];
      ApplyMultiDeletesKeepsOthers(m, front, name, k);
      ApplyMultiDeletesEffect(m, front);
      if last.0 == name {
        DeleteEntriesKeepsOthers(before, name, last.1, k);
      } else {
        DeleteEntriesEffect(before, last.0, last.1);
      }
    }
  }

  /** An update keeps every entry map of the record a genuine dict. */
  lemma UpdatedEntriesKeepDistinct(m: map<string, Dict<string>>, changes: EntryChanges, deletes: EntryChanges)
    requires EntryMapsDistinct(m)
    ensures EntryMapsDistinct(UpdatedEntries(m, changes, deletes))
  {
    ApplyMultiUpdatesKeepsDistinct(m, changes);
    ApplyMultiDeletesEffect(ApplyMultiUpdates(m, changes), deletes);
  }
}
