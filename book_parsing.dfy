/** How a generic book reads the keyword arguments of a command: which of
    them become search conditions, which become new field values, which
    become entries to replace or to delete in a multi-valued field. Each
    parser walks the arguments in order and assigns into a dict, so a later
    argument that yields the same name overrides an earlier one. */
module BookParsing {
  import opened Wrappers
  import opened PyStr
  import opened Dicts
  import opened Records

  const SearchPrefix: string := "search_by"
  const UpdatePrefix: string := "update"
  const MultiValueToSearchPrefix: string := "old"
  const MultiValueToUpdatePrefix: string := "new"
  const MultiValueToDeletePrefix: string := "delete"

  /** An expected value of a condition: a plain string, or the dict of
      entries `_parse_multi_value_fields_from_kwargs` builds for a
      multi-valued field (only its keys are looked at). */
  datatype CondValue = Scalar(text: string) | Entries(entries: Dict<string>)

  type Conditions = Dict<CondValue>

  /** Entries to write, or to remove, per multi-valued field. */
  type EntryChanges = Dict<Dict<string>>

  // ----- _parse_fields_conditions_from_kwargs -----

  /** Whether an argument becomes a condition: a required field name when
      suffixes are not checked, or a `search_by…` name with a non-empty value. */
  predicate SelectsCondition(required: seq<string>, needToCheckSuffix: bool, arg: (string, string)) {
    (!needToCheckSuffix && arg.0 in required) || (StartsWith(arg.0, SearchPrefix) && arg.1 != "")
  }

  /** The field a condition argument names: every `search_by_` removed. */
  function ConditionName(key: string): string {
    Replace(key, SearchPrefix + "_", "")
  }

  /** The assignments the parser makes, in argument order. */
  function SelectedConditions(required: seq<string>, needToCheckSuffix: bool, kwargs: Kwargs): seq<(string, CondValue)> {
    if |kwargs| == 0 then []
    else
      var arg := kwargs[|kwargs| - 1];
      SelectedConditions(required, needToCheckSuffix, kwargs[..|kwargs| - 1])
        + (if SelectsCondition(required, needToCheckSuffix, arg) then [(ConditionName(arg.0), Scalar(arg.1))] else [])
  }

  function FieldConditions(required: seq<string>, needToCheckSuffix: bool, kwargs: Kwargs): Conditions {
    PutAll([], SelectedConditions(required, needToCheckSuffix, kwargs))
  }

  /** `_parse_fields_conditions_from_kwargs`. */
  method ParseFieldsConditions(required: seq<string>, needToCheckSuffix: bool, kwargs: Kwargs) returns (conditions: Conditions)
    ensures conditions == FieldConditions(required, needToCheckSuffix, kwargs)
  {
    conditions := [];
    var i := 0;
    while i < |kwargs|
      invariant 0 <= i <= |kwargs|
      invariant conditions == FieldConditions(required, needToCheckSuffix, kwargs[..i])
    {
      var key, value := kwargs[i].0, kwargs[i].1;
      FieldConditionsStep(required, needToCheckSuffix, kwargs, i);
      if (!needToCheckSuffix && key in required) || (StartsWith(key, SearchPrefix) && value != "") {
        conditions := Put(conditions, ConditionName(key), Scalar(value));
      }
      i := i + 1;
    }
    assert kwargs[..i] == kwargs;
  }

  lemma FieldConditionsStep(required: seq<string>, needToCheckSuffix: bool, kwargs: Kwargs, i: int)
    requires 0 <= i < |kwargs|
    ensures FieldConditions(required, needToCheckSuffix, kwargs[..i + 1]) ==
      if SelectsCondition(required, needToCheckSuffix, kwargs[i])
      then Put(FieldConditions(required, needToCheckSuffix, kwargs[..i]), ConditionName(kwargs[i].0), Scalar(kwargs[i].1))
      else FieldConditions(required, needToCheckSuffix, kwargs[..i])
  {
    var ps := SelectedConditions(required, needToCheckSuffix, kwargs[..i]);
    assert kwargs[..i + 1][..i] == kwargs[..i];
    if SelectsCondition(required, needToCheckSuffix, kwargs[i]) {
      PutAllAppend([], ps, (ConditionName(kwargs[i].0), Scalar(kwargs[i].1)));
    } else {
      assert ps + [] == ps;
    }
  }

  lemma {:induction false} SelectedConditionsKeys(required: seq<string>, needToCheckSuffix: bool, kwargs: Kwargs, c: string)
    ensures c in Keys(SelectedConditions(required, needToCheckSuffix, kwargs)) <==>
      exists i :: 0 <= i < |kwargs| && SelectsCondition(required, needToCheckSuffix, kwargs[i]) && ConditionName(kwargs[i].0) == c
  {
    if |kwargs| > 0 {
      var front := kwargs[..|kwargs| - 1];
      SelectedConditionsKeys(required, needToCheckSuffix, front, c);
      var tail := if SelectsCondition(required, needToCheckSuffix, kwargs[|kwargs| - 1])
        then [(ConditionName(kwargs[|kwargs| - 1].0), Scalar(kwargs[|kwargs| - 1].1))] else [];
      KeysConcat(SelectedConditions(required, needToCheckSuffix, front), tail);
      assert c in Keys(tail) <==> |tail| == 1 && tail[0].0 == c;
      if exists i :: 0 <= i < |kwargs| && SelectsCondition(required, needToCheckSuffix, kwargs[i]) && ConditionName(kwargs[i].0) == c {
        var i :| 0 <= i < |kwargs| && SelectsCondition(required, needToCheckSuffix, kwargs[i]) && ConditionName(kwargs[i].0) == c;
        if i < |kwargs| - 1 {
          assert front[i] == kwargs[i];
        } else {
          assert Keys(tail) == [c];
        }
      }
      if c in Keys(SelectedConditions(required, needToCheckSuffix, front)) {
        var j :| 0 <= j < |front| && SelectsCondition(required, needToCheckSuffix, front[j]) && ConditionName(front[j].0) == c;
        assert kwargs[j] == front[j];
      }
    }
  }

  lemma {:induction false} SelectedConditionsValues(required: seq<string>, kwargs: Kwargs, p: (string, CondValue))
    requires p in SelectedConditions(required, true, kwargs)
    ensures p.1.Scalar? && p.1.text != ""
  {
    var front := kwargs[..|kwargs| - 1];
    if p !in SelectedConditions(required, true, front) {
      assert SelectsCondition(required, true, kwargs[|kwargs| - 1]);
    } else {
      SelectedConditionsValues(required, front, p);
    }
  }

  /** A name is a condition exactly when some selected argument names it,
      and its expected value is the one the last such argument gave. */
  lemma FieldConditionsExact(required: seq<string>, needToCheckSuffix: bool, kwargs: Kwargs, c: string)
    ensures HasKey(FieldConditions(required, needToCheckSuffix, kwargs), c) <==>
      exists i :: 0 <= i < |kwargs| && SelectsCondition(required, needToCheckSuffix, kwargs[i]) && ConditionName(kwargs[i].0) == c
    ensures Get(FieldConditions(required, needToCheckSuffix, kwargs), c) == LastValue(SelectedConditions(required, needToCheckSuffix, kwargs), c)
    ensures DistinctKeys(FieldConditions(required, needToCheckSuffix, kwargs))
  {
    var ps := SelectedConditions(required, needToCheckSuffix, kwargs);
    HasKeyPutAll([], ps, c);
    GetPutAll([], ps, c);
    SelectedConditionsKeys(required, needToCheckSuffix, kwargs, c);
    PutAllKeepsDistinct([], ps);
  }

  /** On the search path every condition expects a non-empty string. */
  lemma SearchConditionsNonEmpty(required: seq<string>, kwargs: Kwargs, c: string)
    requires HasKey(FieldConditions(required, true, kwargs), c)
    ensures var v := Get(FieldConditions(required, true, kwargs), c);
      v.Some? && v.value.Scalar? && v.value.text != ""
  {
    var ps := SelectedConditions(required, true, kwargs);
    FieldConditionsExact(required, true, kwargs, c);
    GetSomeIffHasKey(FieldConditions(required, true, kwargs), c);
    LastValueIn(ps, c);
    SelectedConditionsValues(required, kwargs, (c, LastValue(ps, c).value));
  }

  /** `search_by_<f>` names the field `<f>`. */
  lemma SearchArgumentNamesField(f: string)
    requires !Contains(f, SearchPrefix + "_")
    ensures ConditionName(SearchPrefix + "_" + f) == f
  {
    ReplaceAtStart(SearchPrefix + "_", f, "");
    ReplaceAbsent(f, SearchPrefix + "_", "");
  }

  // ----- _parse_fields_to_update_from_kwargs -----

  /** Whether an argument becomes a field to update: never a multi-valued
      field's own name; under emulation every other argument, otherwise an
      `update…` name with a non-empty value. */
  predicate SelectsUpdate(multi: seq<string>, emulation: bool, arg: (string, string)) {
    arg.0 !in multi && (emulation || (StartsWith(arg.0, UpdatePrefix) && arg.1 != ""))
  }

  function UpdateName(emulation: bool, key: string): string {
    if emulation then key else Replace(key, UpdatePrefix + "_", "")
  }

  function SelectedUpdates(multi: seq<string>, emulation: bool, kwargs: Kwargs): seq<(string, string)> {
    if |kwargs| == 0 then []
    else
      var arg := kwargs[|kwargs| - 1];
      SelectedUpdates(multi, emulation, kwargs[..|kwargs| - 1])
        + (if SelectsUpdate(multi, emulation, arg) then [(UpdateName(emulation, arg.0), arg.1)] else [])
  }

  function FieldsToUpdate(multi: seq<string>, emulation: bool, kwargs: Kwargs): Dict<string> {
    PutAll([], SelectedUpdates(multi, emulation, kwargs))
  }

  /** `_parse_fields_to_update_from_kwargs`. */
  method ParseFieldsToUpdate(multi: seq<string>, emulation: bool, kwargs: Kwargs) returns (updates: Dict<string>)
    ensures updates == FieldsToUpdate(multi, emulation, kwargs)
  {
    updates := [];
    var i := 0;
    while i < |kwargs|
      invariant 0 <= i <= |kwargs|
      invariant updates == FieldsToUpdate(multi, emulation, kwargs[..i])
    {
      var key, value := kwargs[i].0, kwargs[i].1;
      FieldsToUpdateStep(multi, emulation, kwargs, i);
      if key !in multi {
        if emulation {
          updates := Put(updates, key, value);
        } else if StartsWith(key, UpdatePrefix) && value != "" {
          updates := Put(updates, Replace(key, UpdatePrefix + "_", ""), value);
        }
      }
      i := i + 1;
    }
    assert kwargs[..i] == kwargs;
  }

  lemma FieldsToUpdateStep(multi: seq<string>, emulation: bool, kwargs: Kwargs, i: int)
    requires 0 <= i < |kwargs|
    ensures FieldsToUpdate(multi, emulation, kwargs[..i + 1]) ==
      if SelectsUpdate(multi, emulation, kwargs[i])
      then Put(FieldsToUpdate(multi, emulation, kwargs[..i]), UpdateName(emulation, kwargs[i].0), kwargs[i].1)
      else FieldsToUpdate(multi, emulation, kwargs[..i])
  {
    var ps := SelectedUpdates(multi, emulation, kwargs[..i]);
    assert kwargs[..i + 1][..i] == kwargs[..i];
    if SelectsUpdate(multi, emulation, kwargs[i]) {
      PutAllAppend([], ps, (UpdateName(emulation, kwargs[i].0), kwargs[i].1));
    } else {
      assert ps + [] == ps;
    }
  }

  lemma {:induction false} SelectedUpdatesUnderEmulation(multi: seq<string>, kwargs: Kwargs, k: string)
    requires k !in multi
    ensures LastValue(SelectedUpdates(multi, true, kwargs), k) == LastValue(kwargs, k)
  {
    if |kwargs| > 0 {
      var front := kwargs[..|kwargs| - 1];
      var arg := kwargs[|kwargs| - 1];
      SelectedUpdatesUnderEmulation(multi, front, k);
      var ps := SelectedUpdates(multi, true, front);
      if arg.0 in multi {
        assert SelectedUpdates(multi, true, kwargs) == ps + [];
        assert ps + [] == ps;
      } else {
        assert SelectedUpdates(multi, true, kwargs) == ps + [arg];
        assert (ps + [arg])[..|ps|] == ps;
      }
    }
  }

  /** Under emulation every argument that is not a multi-valued field's
      name is taken verbatim as a field to update, with its last value. */
  lemma EmulationUpdatesVerbatim(multi: seq<string>, kwargs: Kwargs, k: string)
    ensures Get(FieldsToUpdate(multi, true, kwargs), k) == if k in multi then None else LastValue(kwargs, k)
  {
    var ps := SelectedUpdates(multi, true, kwargs);
    GetPutAll([], ps, k);
    if k in multi {
      LastValueSomeIffKey(ps, k);
      SelectedUpdatesNames(multi, true, kwargs, k);
    } else {
      SelectedUpdatesUnderEmulation(multi, kwargs, k);
    }
  }

  lemma {:induction false} SelectedUpdatesNames(multi: seq<string>, emulation: bool, kwargs: Kwargs, k: string)
    ensures k in Keys(SelectedUpdates(multi, emulation, kwargs)) <==>
      exists i :: 0 <= i < |kwargs| && SelectsUpdate(multi, emulation, kwargs[i]) && UpdateName(emulation, kwargs[i].0) == k
  {
    if |kwargs| > 0 {
      var front := kwargs[..|kwargs| - 1];
      var arg := kwargs[|kwargs| - 1];
      SelectedUpdatesNames(multi, emulation, front, k);
      var tail := if SelectsUpdate(multi, emulation, arg) then [(UpdateName(emulation, arg.0), arg.1)] else [];
      KeysConcat(SelectedUpdates(multi, emulation, front), tail);
      assert k in Keys(tail) <==> |tail| == 1 && tail[0].0 == k;
      if exists i :: 0 <= i < |kwargs| && SelectsUpdate(multi, emulation, kwargs[i]) && UpdateName(emulation, kwargs[i].0) == k {
        var i :| 0 <= i < |kwargs| && SelectsUpdate(multi, emulation, kwargs[i]) && UpdateName(emulation, kwargs[i].0) == k;
        if i < |kwargs| - 1 {
          assert front[i] == kwargs[i];
        } else {
          assert Keys(tail) == [k];
        }
      }
      if k in Keys(SelectedUpdates(multi, emulation, front)) {
        var j :| 0 <= j < |front| && SelectsUpdate(multi, emulation, front[j]) && UpdateName(emulation, front[j].0) == k;
        assert kwargs[j] == front[j];
      }
    }
  }

  /** Outside emulation a field is updated exactly when some non-empty
      `update…` argument (other than a multi-valued field's own name) names
      it, with the last such value. */
  lemma FieldsToUpdateExact(multi: seq<string>, kwargs: Kwargs, f: string)
    ensures HasKey(FieldsToUpdate(multi, false, kwargs), f) <==>
      exists i :: 0 <= i < |kwargs| && kwargs[i].0 !in multi && StartsWith(kwargs[i].0, UpdatePrefix)
        && kwargs[i].1 != "" && Replace(kwargs[i].0, UpdatePrefix + "_", "") == f
    ensures Get(FieldsToUpdate(multi, false, kwargs), f) == LastValue(SelectedUpdates(multi, false, kwargs), f)
  {
    var ps := SelectedUpdates(multi, false, kwargs);
    HasKeyPutAll([], ps, f);
    GetPutAll([], ps, f);
    SelectedUpdatesNames(multi, false, kwargs, f);
  }

  /** `update_<f>` names the field `<f>`. */
  lemma UpdateArgumentNamesField(f: string)
    requires !Contains(f, UpdatePrefix + "_")
    ensures UpdateName(false, UpdatePrefix + "_" + f) == f
  {
    ReplaceAtStart(UpdatePrefix + "_", f, "");
    ReplaceAbsent(f, UpdatePrefix + "_", "");
  }

  /** Only the exact name of a multi-valued field is kept out of the update
      set: for a multi-valued field `f` (say `phone_number`), the argument
      `update_f` still yields the name `f`, which the update then stores as a
      plain field. */
  lemma UpdateArgumentCanNameMultiValueField(f: string, v: string)
    requires v != "" && !Contains(f, UpdatePrefix + "_")
    ensures FieldsToUpdate([f], false, [(UpdatePrefix + "_" + f, v)]) == [(f, v)]
  {
    var key := UpdatePrefix + "_" + f;
    assert StartsWith(key, UpdatePrefix) by {
      assert key[..|UpdatePrefix|] == UpdatePrefix;
    }
    assert key != f by {
      assert |key| > |f|;
    }
    UpdateArgumentNamesField(f);
    var kwargs := [(key, v)];
    assert kwargs[..0] == [];
    assert key !in [f];
    assert SelectsUpdate([f], false, kwargs[|kwargs| - 1]);
    assert SelectedUpdates([f], false, kwargs[..0]) == [];
    var ps := SelectedUpdates([f], false, kwargs);
    assert ps == [] + [(f, v)];
    assert ps[..0] == [];
    assert PutAll([], ps) == Put([], f, v);
  }

  // ----- _parse_multi_value_fields_from_kwargs -----

  /** The argument holding the new entry of a multi-valued field. */
  function MultiValueUpdateArg(name: string, emulation: bool): string {
    if emulation then name else MultiValueToUpdatePrefix + "_" + name
  }

  /** The argument holding the entry to look for. */
  function MultiValueSearchArg(name: string, needToCheckSuffix: bool): string {
    (if needToCheckSuffix then SearchPrefix else MultiValueToSearchPrefix) + "_" + name
  }

  /** The (entry to look for, entry to write) pair the source assigns for
      one multi-valued field, as written: with unchecked suffixes the pair
      for a given old value is (old, old), so the new value is never used. */
  function MultiValuePairAsWritten(kwargs: Kwargs, name: string, needToCheckSuffix: bool, emulation: bool): Option<(string, string)> {
    var newValue := GetOr(kwargs, MultiValueUpdateArg(name, emulation), "");
    var oldValue := GetOr(kwargs, MultiValueSearchArg(name, needToCheckSuffix), "");
    if oldValue != "" then Some((oldValue, if needToCheckSuffix then newValue else oldValue))
    else if newValue != "" then Some((newValue, newValue))
    else None
  }

  /** The pair as the update evidently intends it: with unchecked suffixes
      a given old value is replaced by the new one when there is one. */
  function MultiValuePair(kwargs: Kwargs, name: string, needToCheckSuffix: bool, emulation: bool): Option<(string, string)> {
    var newValue := GetOr(kwargs, MultiValueUpdateArg(name, emulation), "");
    var oldValue := GetOr(kwargs, MultiValueSearchArg(name, needToCheckSuffix), "");
    if oldValue != "" then Some((oldValue, if !needToCheckSuffix && newValue == "" then oldValue else newValue))
    else if newValue != "" then Some((newValue, newValue))
    else None
  }

  /** `multi_field_values.setdefault(name, {})[key] = value`. */
  function SetEntry(m: EntryChanges, name: string, key: string, value: string): EntryChanges {
    Put(m, name, Put(GetOr(m, name, []), key, value))
  }

  function MultiValueChangesOf(kwargs: Kwargs, multi: seq<string>, needToCheckSuffix: bool, emulation: bool): EntryChanges {
    if |multi| == 0 then []
    else
      var m := MultiValueChangesOf(kwargs, multi[..|multi| - 1], needToCheckSuffix, emulation);
      var name := multi[|multi| - 1];
      match MultiValuePair(kwargs, name, needToCheckSuffix, emulation)
      case None => m
      case Some(p) => SetEntry(m, name, p.0, p.1)
  }

  function MultiValueChanges(multi: seq<string>, needToCheckSuffix: bool, forUpdateOperation: bool, emulation: bool, kwargs: Kwargs): EntryChanges {
    if forUpdateOperation && !emulation then [] else MultiValueChangesOf(kwargs, multi, needToCheckSuffix, emulation)
  }

  /** `_parse_multi_value_fields_from_kwargs`, with the pair of
      `MultiValuePair`. */
  method ParseMultiValueFields(multi: seq<string>, needToCheckSuffix: bool, forUpdateOperation: bool, emulation: bool, kwargs: Kwargs)
    returns (changes: EntryChanges)
    ensures changes == MultiValueChanges(multi, needToCheckSuffix, forUpdateOperation, emulation, kwargs)
  {
    changes := [];
    if forUpdateOperation && !emulation {
      return;
    }
    var i := 0;
    while i < |multi|
      invariant 0 <= i <= |multi|
      invariant changes == MultiValueChangesOf(kwargs, multi[..i], needToCheckSuffix, emulation)
    {
      assert multi[..i + 1][..i] == multi[..i];
      var name := multi[i];
      var updateArg := if emulation then name else MultiValueToUpdatePrefix + "_" + name;
      var searchArg := (if needToCheckSuffix then SearchPrefix else MultiValueToSearchPrefix) + "_" + name;
      var newValue := GetOr(kwargs, updateArg, "");
      var oldValue := GetOr(kwargs, searchArg, "");
      if oldValue != "" {
        var value := if !needToCheckSuffix && newValue == "" then oldValue else newValue;
        changes := Put(changes, name, Put(GetOr(changes, name, []), oldValue, value));
      } else if newValue != "" {
        changes := Put(changes, name, Put(GetOr(changes, name, []), newValue, newValue));
      }
      i := i + 1;
    }
    assert multi[..i] == multi;
  }

  /** Each multi-valued field gets at most one pair, keyed by the value to
      look for (or the new value when none is given). */
  lemma {:induction false} MultiValueChangesShape(kwargs: Kwargs, multi: seq<string>, needToCheckSuffix: bool, emulation: bool, name: string)
    requires forall i, j :: 0 <= i < j < |multi| ==> multi[i] != multi[j]
    ensures Get(MultiValueChangesOf(kwargs, multi, needToCheckSuffix, emulation), name) ==
      if name in multi && MultiValuePair(kwargs, name, needToCheckSuffix, emulation).Some?
      then Some([MultiValuePair(kwargs, name, needToCheckSuffix, emulation).value])
      else None
  {
    if |multi| > 0 {
      var front := multi[..|multi| - 1];
      var last := multi[|multi| - 1];
      assert name in multi <==> name in front || name == last by {
        assert multi == front + [last];
      }
      assert last !in front && forall i, j :: 0 <= i < j < |front| ==> front[i] != front[j] by {
        assert forall i :: 0 <= i < |front| ==> front[i] == multi[i];
      }
      MultiValueChangesShape(kwargs, front, needToCheckSuffix, emulation, name);
      MultiValueChangesShape(kwargs, front, needToCheckSuffix, emulation, last);
      var m := MultiValueChangesOf(kwargs, front, needToCheckSuffix, emulation);
      match MultiValuePair(kwargs, last, needToCheckSuffix, emulation)
      case None =>
      case Some(p) =>
        GetPut(m, last, Put(GetOr(m, last, []), p.0, p.1), name);
    }
  }

  // ----- _parse_multi_value_fields_to_delete_from_kwargs -----

  predicate SelectsDelete(arg: (string, string)) {
    StartsWith(arg.0, MultiValueToDeletePrefix) && arg.1 != ""
  }

  function DeleteName(key: string): string {
    Replace(key, MultiValueToDeletePrefix + "_", "")
  }

  function EntriesToDelete(kwargs: Kwargs): EntryChanges {
    if |kwargs| == 0 then []
    else
      var m := EntriesToDelete(kwargs[..|kwargs| - 1]);
      var arg := kwargs[|kwargs| - 1];
      if SelectsDelete(arg) then SetEntry(m, DeleteName(arg.0), arg.1, arg.1) else m
  }

  /** `_parse_multi_value_fields_to_delete_from_kwargs`. */
  method ParseEntriesToDelete(kwargs: Kwargs) returns (deletes: EntryChanges)
    ensures deletes == EntriesToDelete(kwargs)
  {
    deletes := [];
    var i := 0;
    while i < |kwargs|
      invariant 0 <= i <= |kwargs|
      invariant deletes == EntriesToDelete(kwargs[..i])
    {
      var key, value := kwargs[i].0, kwargs[i].1;
      assert kwargs[..i + 1][..i] == kwargs[..i];
      if StartsWith(key, MultiValueToDeletePrefix) && value != "" {
        var name := Replace(key, MultiValueToDeletePrefix + "_", "");
        deletes := Put(deletes, name, Put(GetOr(deletes, name, []), value, value));
      }
      i := i + 1;
    }
    assert kwargs[..i] == kwargs;
  }

  lemma SetEntryKeepsEntries(m: EntryChanges, name: string, key: string, value: string, name': string, k: string)
    requires HasKey(GetOr(m, name', []), k)
    ensures HasKey(GetOr(SetEntry(m, name, key, value), name', []), k)
  {
    var inner := Put(GetOr(m, name, []), key, value);
    GetPut(m, name, inner, name');
    if name' == name {
      KeysPut(GetOr(m, name, []), key, value);
    }
  }

  /** Every non-empty `delete…` argument puts its value among the entries to
      delete from the field it names. */
  lemma {:induction false} EntriesToDeleteComplete(kwargs: Kwargs, i: int)
    requires 0 <= i < |kwargs| && SelectsDelete(kwargs[i])
    ensures HasKey(GetOr(EntriesToDelete(kwargs), DeleteName(kwargs[i].0), []), kwargs[i].1)
  {
    var front := kwargs[..|kwargs| - 1];
    var arg := kwargs[|kwargs| - 1];
    var m := EntriesToDelete(front);
    if i == |kwargs| - 1 {
      var inner := Put(GetOr(m, DeleteName(arg.0), []), arg.1, arg.1);
      GetPut(m, DeleteName(arg.0), inner, DeleteName(arg.0));
      KeysPut(GetOr(m, DeleteName(arg.0), []), arg.1, arg.1);
    } else {
      assert front[i] == kwargs[i];
      EntriesToDeleteComplete(front, i);
      if SelectsDelete(arg) {
        SetEntryKeepsEntries(m, DeleteName(arg.0), arg.1, arg.1, DeleteName(kwargs[i].0), kwargs[i].1);
      }
    }
  }
  /** Conversely, every value listed for deletion from a field comes from a
      non-empty `delete…` argument naming that field. */
  lemma {:induction false} EntriesToDeleteSound(kwargs: Kwargs, name: string, v: string)
    requires HasKey(GetOr(EntriesToDelete(kwargs), name, []), v)
    ensures exists i :: 0 <= i < |kwargs| && SelectsDelete(kwargs[i]) && DeleteName(kwargs[i].0) == name && kwargs[i].1 == v
  {
    var front := kwargs[..|kwargs| - 1];
    var arg := kwargs[|kwargs| - 1];
    var m := EntriesToDelete(front);
    var last := |kwargs| - 1;
    if SelectsDelete(arg) && DeleteName(arg.0) == name {
      var inner := Put(GetOr(m, name, []), arg.1, arg.1);
      GetPut(m, name, inner, name);
      KeysPut(GetOr(m, name, []), arg.1, arg.1);
      if v == arg.1 {
        assert SelectsDelete(kwargs[last]) && DeleteName(kwargs[last].0) == name && kwargs[last].1 == v;
        return;
      }
    } else if SelectsDelete(arg) {
      GetPut(m, DeleteName(arg.0), Put(GetOr(m, DeleteName(arg.0), []), arg.1, arg.1), name);
    }
    EntriesToDeleteSound(front, name, v);
    var i :| 0 <= i < |front| && SelectsDelete(front[i]) && DeleteName(front[i].0) == name && front[i].1 == v;
    assert kwargs[i] == front[i];
  }


  // ----- the finding: multi-valued entries on the update path -----

  /** As written, an update given `old_<field>=a` and `new_<field>=b` asks
      to replace `a` by `a`: the new value is dropped. */
  lemma UpdateDropsNewValueAsWritten(name: string, a: string, b: string)
    requires a != "" && b != ""
    ensures var kwargs := [(MultiValueToSearchPrefix + "_" + name, a), (MultiValueToUpdatePrefix + "_" + name, b)];
      MultiValuePairAsWritten(kwargs, name, false, false) == Some((a, a))
  {
    var kwargs := [(MultiValueToSearchPrefix + "_" + name, a), (MultiValueToUpdatePrefix + "_" + name, b)];
    assert (MultiValueToSearchPrefix + "_" + name)[0] == 'o';
    assert (MultiValueToUpdatePrefix + "_" + name)[0] == 'n';
    assert MultiValueToSearchPrefix + "_" + name != MultiValueToUpdatePrefix + "_" + name;
    assert kwargs[1..] == [(MultiValueToUpdatePrefix + "_" + name, b)];
    assert kwargs[0].0 != MultiValueUpdateArg(name, false);
    assert Get(kwargs[1..], MultiValueUpdateArg(name, false)) == Some(b);
    assert GetOr(kwargs, MultiValueSearchArg(name, false), "") == a;
    assert GetOr(kwargs, MultiValueUpdateArg(name, false), "") == b;
  }

  /** As intended, the same arguments ask to replace `a` by `b`. */
  lemma UpdateReplacesEntry(name: string, a: string, b: string)
    requires a != "" && b != ""
    ensures var kwargs := [(MultiValueToSearchPrefix + "_" + name, a), (MultiValueToUpdatePrefix + "_" + name, b)];
      MultiValuePair(kwargs, name, false, false) == Some((a, b))
  {
    var kwargs := [(MultiValueToSearchPrefix + "_" + name, a), (MultiValueToUpdatePrefix + "_" + name, b)];
    assert (MultiValueToSearchPrefix + "_" + name)[0] == 'o';
    assert (MultiValueToUpdatePrefix + "_" + name)[0] == 'n';
    assert MultiValueToSearchPrefix + "_" + name != MultiValueToUpdatePrefix + "_" + name;
    assert kwargs[1..] == [(MultiValueToUpdatePrefix + "_" + name, b)];
    assert kwargs[0].0 != MultiValueUpdateArg(name, false);
    assert Get(kwargs[1..], MultiValueUpdateArg(name, false)) == Some(b);
    assert GetOr(kwargs, MultiValueSearchArg(name, false), "") == a;
    assert GetOr(kwargs, MultiValueUpdateArg(name, false), "") == b;
  }

  /** Both versions agree everywhere except on the update path when an old
      value is given. */
  lemma MultiValuePairAgreesElsewhere(kwargs: Kwargs, name: string, needToCheckSuffix: bool, emulation: bool)
    requires needToCheckSuffix || GetOr(kwargs, MultiValueSearchArg(name, needToCheckSuffix), "") == ""
    ensures MultiValuePair(kwargs, name, needToCheckSuffix, emulation) == MultiValuePairAsWritten(kwargs, name, needToCheckSuffix, emulation)
  {
  }
}
