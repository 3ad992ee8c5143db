/** The note record kind: a title, an optional body and any number of tags. */
module NoteRecord {
  import opened Wrappers
  import opened PyStr
  import opened Dicts
  import opened Records

  const RecordFields: seq<string> := ["title", "body"]
  const MultiValueFields: seq<string> := ["tag"]
  const RequiredFields: seq<string> := ["title"]
  /** `get_record_fields_to_validate`: notes declare no validated field. */
  const FieldsToValidate: seq<string> := []

  const NoteSchema: Schema := Schema(RecordFields, MultiValueFields, RequiredFields)

  /** A note is accepted exactly when it names only `title` and `body` and
      its title is present and not empty. */
  lemma NoteAccepted(kwargs: Kwargs)
    ensures ValidateKwargs(NoteSchema, kwargs).Pass? <==>
      (forall k :: k in Keys(kwargs) ==> k == "title" || k == "body") && GetOr(kwargs, "title", "") != ""
  {
    var r := ValidateKwargs(NoteSchema, kwargs);
    var fieldsOk := forall k :: k in Keys(kwargs) ==> k in NoteSchema.fields;
    var requiredOk := forall f :: f in NoteSchema.requiredFields ==> !IsMissing(kwargs, f);
    assert r.Pass? <==> fieldsOk && requiredOk;
    assert NoteSchema.requiredFields == ["title"];
    assert requiredOk <==> !IsMissing(kwargs, "title");
    assert fieldsOk <==> forall k :: k in Keys(kwargs) ==> k == "title" || k == "body";
  }

  /** A tag cannot be given when a note is created: `tag` is not a declared
      field, so it is refused before anything is stored. */
  lemma TagArgumentRejected(kwargs: Kwargs)
    requires "tag" in Keys(kwargs)
    ensures ValidateKwargs(NoteSchema, kwargs) == Fail("Unsupported field(s): " + Join(UnsupportedFields(NoteSchema, kwargs), ", "))
    ensures "tag" in UnsupportedFields(NoteSchema, kwargs)
  {
    assert "tag" !in NoteSchema.fields;
  }
}
