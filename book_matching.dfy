/** `_matches_conditions`: whether a record satisfies every condition. A plain
    field compares case-insensitively with its string form (a missing field
    reads as `None`); an expected entry of a multi-valued field only has to
    occur somewhere in the printed list of the record's lower-cased entries. */
module BookMatching {
  import opened Wrappers
  import opened PyStr
  import opened Dicts
  import opened Records
  import opened BookParsing

  /** `repr` of a string without quotes or backslashes in it. */
  function Quote(s: string): string {
    "'" + s + "'"
  }

  function QuoteAll(items: seq<string>): (r: seq<string>)
    ensures |r| == |items|
    ensures forall i :: 0 <= i < |items| ==> r[i] == Quote(items[i])
  {
    seq(|items|, i requires 0 <= i < |items| => Quote(items[i]))
  }

  function LowerAll(items: seq<string>): (r: seq<string>)
    ensures |r| == |items|
    ensures forall i :: 0 <= i < |items| ==> r[i] == Lower(items[i])
  {
    seq(|items|, i requires 0 <= i < |items| => Lower(items[i]))
  }

  /** `str(list_of_strings)`. */
  function ListRepr(items: seq<string>): string {
    "[" + Join(QuoteAll(items), ", ") + "]"
  }

  /** `str(dict_of_strings)`. */
  function DictRepr(d: Dict<string>): string {
    "{" + Join(seq(|d|, i requires 0 <= i < |d| => Quote(d[i].0) + ": " + Quote(d[i].1)), ", ") + "}"
  }

  /** The expected entries of a multi-valued condition: a string stands for
      itself, a dict for its keys. */
  function ExpectedEntries(v: CondValue): seq<string> {
    match v
    case Scalar(t) => [t]
    case Entries(es) => Keys(es)
  }

  /** `str(expected_value)`. */
  function ExpectedText(v: CondValue): string {
    match v
    case Scalar(t) => t
    case Entries(es) => DictRepr(es)
  }

  /** `str(record.fields.get(field))`. */
  function FieldText(fields: map<string, string>, field: string): string {
    if field in fields then fields[field] else "None"
  }

  /** The string the entries of a multi-valued field are searched in. */
  function EntriesText(multiValueFields: map<string, Dict<string>>, field: string): string {
    ListRepr(LowerAll(Keys(EntriesOf(multiValueFields, field))))
  }

  predicate ConditionHolds(multiFields: seq<string>, fields: map<string, string>, multiValueFields: map<string, Dict<string>>,
                           cond: (string, CondValue)) {
    if cond.0 in multiFields then
      var expected := ExpectedEntries(cond.1);
      forall i :: 0 <= i < |expected| ==> Contains(EntriesText(multiValueFields, cond.0), Lower(expected[i]))
    else
      Lower(FieldText(fields, cond.0)) == Lower(ExpectedText(cond.1))
  }

  predicate Matches(multiFields: seq<string>, fields: map<string, string>, multiValueFields: map<string, Dict<string>>,
                    conditions: Conditions) {
    forall i :: 0 <= i < |conditions| ==> ConditionHolds(multiFields, fields, multiValueFields, conditions[i])
  }

  /** `_matches_conditions`, for a record with the given fields and entries. */
  method MatchesConditions(multiFields: seq<string>, fields: map<string, string>, multiValueFields: map<string, Dict<string>>,
                           conditions: Conditions) returns (ok: bool)
    ensures ok == Matches(multiFields, fields, multiValueFields, conditions)
  {
    var i := 0;
    while i < |conditions|
      invariant 0 <= i <= |conditions|
      invariant forall j :: 0 <= j < i ==> ConditionHolds(multiFields, fields, multiValueFields, conditions[j])
    {
      var (field, expected) := conditions[i];
      if field in multiFields {
        var expectedValues := ExpectedEntries(expected);
        var actualValuesLower := EntriesText(multiValueFields, field);
        var k := 0;
        while k < |expectedValues|
          invariant 0 <= k <= |expectedValues|
          invariant forall j :: 0 <= j < k ==> Contains(actualValuesLower, Lower(expectedValues[j]))
        {
          if !Contains(actualValuesLower, Lower(expectedValues[k])) {
            return false;
          }
          k := k + 1;
        }
      } else {
        if Lower(FieldText(fields, field)) != Lower(ExpectedText(expected)) {
          return false;
        }
      }
      i := i + 1;
    }
    return true;
  }

  // ----- properties of the matcher -----

  /** A string expected in a multi-valued field stands for one entry. */
  lemma SingleExpectedEntry(multiFields: seq<string>, fields: map<string, string>,
                            multiValueFields: map<string, Dict<string>>, field: string, text: string)
    requires field in multiFields
    ensures ConditionHolds(multiFields, fields, multiValueFields, (field, Scalar(text)))
        <==> Contains(EntriesText(multiValueFields, field), Lower(text))
  {
    var expected := ExpectedEntries(Scalar(text));
    var entries := EntriesText(multiValueFields, field);
    assert expected == [text];
    assert ConditionHolds(multiFields, fields, multiValueFields, (field, Scalar(text)))
        == forall i :: 0 <= i < |expected| ==> Contains(entries, Lower(expected[i]));
    if Contains(entries, Lower(text)) {
      forall i | 0 <= i < |expected| ensures Contains(entries, Lower(expected[i])) {
        assert expected[i] == text;
      }
    } else {
      assert !Contains(entries, Lower(expected[0]));
    }
  }

  /** The case of an expected string never matters. */
  lemma ScalarConditionIgnoresCase(multiFields: seq<string>, fields: map<string, string>,
                                   multiValueFields: map<string, Dict<string>>, field: string, text: string)
    ensures ConditionHolds(multiFields, fields, multiValueFields, (field, Scalar(text)))
        <==> ConditionHolds(multiFields, fields, multiValueFields, (field, Scalar(Lower(text))))
  {
    LowerIdempotent(text);
    if field in multiFields {
      SingleExpectedEntry(multiFields, fields, multiValueFields, field, text);
      SingleExpectedEntry(multiFields, fields, multiValueFields, field, Lower(text));
    }
  }

  /** A plain field matches its own value in any case, and a field the
      record lacks matches the text `None`. */
  lemma ScalarConditionOwnValue(multiFields: seq<string>, fields: map<string, string>,
                                multiValueFields: map<string, Dict<string>>, field: string)
    requires field !in multiFields
    ensures field in fields ==>
      ConditionHolds(multiFields, fields, multiValueFields, (field, Scalar(Lower(fields[field]))))
    ensures field !in fields ==>
      ConditionHolds(multiFields, fields, multiValueFields, (field, Scalar("None")))
  {
    if field in fields {
      LowerIdempotent(fields[field]);
    }
  }

  /** As written, a record just built does not match a condition on a plain
      field it was given, unless the value reads `None`: its `fields` dict is
      empty and the field reads as `None`. */
  lemma NewRecordUnmatchedAsWritten(schema: Schema, kwargs: Kwargs, m: map<string, Dict<string>>, f: string, v: string)
    requires f in schema.fields && f !in schema.multiValueFields
    requires Get(kwargs, f) == Some(v) && Lower(v) != "none"
    ensures f in InitialStateAsWritten(schema.fields, kwargs).attributes
    ensures !ConditionHolds(schema.multiValueFields, InitialStateAsWritten(schema.fields, kwargs).fields, m, (f, Scalar(v)))
  {
    GetSomeIffHasKey(kwargs, f);
    InitialFieldsExact(schema.fields, kwargs, f);
  }

  /** With the fields stored in `fields`, a record just built matches a
      condition on any plain field it was given, in any letter case. */
  lemma NewRecordMatchesOwnFields(schema: Schema, kwargs: Kwargs, m: map<string, Dict<string>>, f: string, v: string)
    requires f in schema.fields && f !in schema.multiValueFields
    requires Get(kwargs, f) == Some(v)
    ensures ConditionHolds(schema.multiValueFields, InitialFields(schema.fields, kwargs), m, (f, Scalar(v)))
    ensures ConditionHolds(schema.multiValueFields, InitialFields(schema.fields, kwargs), m, (f, Scalar(Lower(v))))
  {
    GetSomeIffHasKey(kwargs, f);
    InitialFieldsExact(schema.fields, kwargs, f);
    LowerIdempotent(v);
  }

  lemma EntryTextContains(multiValueFields: map<string, Dict<string>>, field: string, e: string)
    requires HasKey(EntriesOf(multiValueFields, field), e)
    ensures Contains(EntriesText(multiValueFields, field), Lower(e))
  {
    var keys := Keys(EntriesOf(multiValueFields, field));
    var i :| 0 <= i < |keys| && keys[i] == e;
    var quoted := QuoteAll(LowerAll(keys));
    JoinContainsPart(quoted, ", ", i);
    ContainsPrepend("[", Join(quoted, ", "), quoted[i]);
    ContainsExtend("[" + Join(quoted, ", "), "]", quoted[i]);
    ContainsMiddle("'", Lower(e), "'");
    ContainsTrans(EntriesText(multiValueFields, field), quoted[i], Lower(e));
  }

  /** The substring quirk: an expected entry matches when, ignoring case, it
      occurs inside any one entry of the record, not only when it equals one. */
  lemma PartOfEntryMatches(multiFields: seq<string>, fields: map<string, string>,
                           multiValueFields: map<string, Dict<string>>, field: string, e: string, part: string)
    requires field in multiFields
    requires HasKey(EntriesOf(multiValueFields, field), e)
    requires Contains(Lower(e), Lower(part))
    ensures ConditionHolds(multiFields, fields, multiValueFields, (field, Scalar(part)))
  {
    EntryTextContains(multiValueFields, field, e);
    ContainsTrans(EntriesText(multiValueFields, field), Lower(e), Lower(part));
    SingleExpectedEntry(multiFields, fields, multiValueFields, field, part);
  }

  /** The quirk at its widest: an expected entry `[` matches every record,
      even one with no entry at all, because the printed list starts with it. */
  lemma BracketMatchesEveryRecord(multiFields: seq<string>, fields: map<string, string>,
                                  multiValueFields: map<string, Dict<string>>, field: string)
    requires field in multiFields
    ensures ConditionHolds(multiFields, fields, multiValueFields, (field, Scalar("[")))
  {
    var text := EntriesText(multiValueFields, field);
    assert Lower("[") == "[";
    assert text[0..1] == "[";
    ContainsAt(text, "[", 0);
    SingleExpectedEntry(multiFields, fields, multiValueFields, field, "[");
  }

  /** A record that matches some conditions matches each part of them. */
  lemma MatchesSplit(multiFields: seq<string>, fields: map<string, string>,
                     multiValueFields: map<string, Dict<string>>, a: Conditions, b: Conditions)
    ensures Matches(multiFields, fields, multiValueFields, a + b) <==>
      Matches(multiFields, fields, multiValueFields, a) && Matches(multiFields, fields, multiValueFields, b)
  {
    if Matches(multiFields, fields, multiValueFields, a) && Matches(multiFields, fields, multiValueFields, b) {
      forall i | 0 <= i < |a + b| ensures ConditionHolds(multiFields, fields, multiValueFields, (a + b)[i]) {
        if i >= |a| { assert (a + b)[i] == b[i - |a|]; }
      }
    }
    if Matches(multiFields, fields, multiValueFields, a + b) {
      forall i | 0 <= i < |a| ensures ConditionHolds(multiFields, fields, multiValueFields, a[i]) {
        assert (a + b)[i] == a[i];
      }
      forall i | 0 <= i < |b| ensures ConditionHolds(multiFields, fields, multiValueFields, b[i]) {
        assert (a + b)[|a| + i] == b[i];
      }
    }
  }
}
