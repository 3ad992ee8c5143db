# Personal assistant core: books of records, command catalog, completer

A model of the core of a command-line personal assistant. The assistant keeps
*books* (contacts and notes) of *records*. From the books it generates a
catalog of text commands such as `add-contact` or `update-note-tag`,
dispatches a typed command to the matching book method, and helps the user
complete commands and their arguments.

The model has these parts:

- **Records** (`record.dfy`, `contact_record.dfy`, `note_record.dfy`).
  - A record kind is a `Schema`: its declared fields, its multi-valued fields
    and its required fields.
  - Constructor validation: unsupported and missing fields, with the same
    error messages.
  - `Records.Record` is a class. It holds the scalar `fields` map and one
    insertion-ordered entry map per multi-valued field. Its add, update,
    delete, get and init methods change those maps in place.
  - The contact kind's phone-number normaliser and e-mail check are pure
    functions with their properties proved. The e-mail check is proved
    against an independent statement of its regular expression.
- **Books** (`book_parsing.dfy`, `book_matching.dfy`, `book_updates.dfy`,
  `book.dfy`).
  - Keyword arguments are parsed into search conditions, field updates,
    entry replacements and entry deletions. Each parse is a loop proved
    against a specification function.
  - The matcher is a loop proved equal to a predicate. Lemmas state its
    case-insensitivity, its `None` reading of a missing field and its
    substring behaviour on multi-valued fields.
  - `Books.Book` is a class over a dict of `Records.Record` objects:
    - `AddRecord` inserts into the dict.
    - `UpdateRecords` changes the matched record objects in place.
    - `DeleteRecords` pops their keys.
    Each method states the exact new state and the `(code, records,
    conditions)` answer.
- **Book manager** (`book_manager.dfy`).
  - The command catalog is built by nested loops proved equal to an
    insertion-ordered dict function. Lemmas give each command's parameters.
  - Dispatch of a command name is a first-match search over the books. It is
    proved to invert the naming rule for the record operations.
  - Python reflection (`dir`, `getattr`, `inspect.signature`) becomes an
    explicit table per book (`BookManager.BookInfo`). The table lists the
    book's members in `dir` order, with their callable and hidden flags and
    their parameter names.
- **Command completer** (`command_auto_complete.dfy`).
  - The flattened command table and the matching decisions.
  - Resolving which book a command names.
  - Which argument plan a command gets.
  - `difflib` fuzzy matching is a function-valued field of the completer.
- **Decorators and `dict_to_string`** (`decorators.dfy`, `utilities.dfy`).

Python's `dict` is modelled in `dicts.dfy` as a sequence of `(key, value)`
pairs:

- assigning to a present key keeps its position;
- assigning to a new key appends it;
- `pop` removes the key.

`pystr.dfy` models the `str` methods the source uses: `startswith`,
`endswith`, `in`, `replace`, `split`, `join`, `strip` and `lower`, plus
the digit class `\d` of the pattern `re.sub(r'\D', '', …)` with which phone
numbers are cleaned. `lower` is restricted to ASCII, and a digit means ASCII
`0` to `9`, where Python's `\d` also takes the decimal digits of other
scripts (see "## Left out").

## Model

| member | source | states |
|---|---|---|
| Records.UnsupportedFields | src/core/record.py:12-13 | a name is reported exactly when it was passed and is not a declared field |
| Records.MissingRequiredFields | src/core/record.py:18-22 | a required field is reported exactly when it is absent or empty |
| Records.ValidateKwargs | src/core/record.py:12-24 | construction passes iff every passed name is declared and every required field is present and non-empty; unsupported names are reported first with the "Unsupported field(s): " message, otherwise the "Missing required field(s): " message |
| Records.Record.constructor | src/core/record.py:8-45 | a validated record holds exactly the declared fields passed (see Findings) and, for each multi-valued field passed, an entry keyed by its own value; every entry map is a genuine dict |
| Records.InitialFieldsExact | src/core/record.py:34-45 | a new record holds a field iff it is declared and was passed, and then with the passed value |
| Records.Record.InitMultiValueField | src/core/record.py:90-93 | a missing field gets an empty entry map; an existing one is kept; scalar fields unchanged |
| Records.InitialiseKeepsEntries | src/core/record.py:90-93 | initialising never clears entries, of that field or any other |
| Records.Record.AddMultiValueFieldEntry | src/core/record.py:65-67 | the value is assigned to itself in the field's entry map, created if missing |
| Records.AddedEntryMapsToItself | src/core/record.py:65-67 | after adding, the value maps to itself and other fields' entries are unchanged |
| Records.AddEntryIdempotent | src/core/record.py:65-67 | adding the same value twice equals adding it once |
| Records.Record.UpdateMultiValueFieldEntry | src/core/record.py:69-74 | fails with "Old value … not found in …" iff the old value is not an entry; otherwise the old key now maps to the new value |
| Records.UpdatedEntryKeepsKeys | src/core/record.py:69-74 | a successful update keeps the key sequence and maps the old key to the new value |
| Records.Record.DeleteMultiValueFieldEntry | src/core/record.py:76-83 | fails with "… not found in …" iff the value is not an entry; otherwise pops it |
| Records.DeletedEntryRemovesExactly | src/core/record.py:76-83 | deletion removes exactly that key and keeps every other entry and its value |
| Records.Record.GetMultiValueFieldEntries | src/core/record.py:85-88 | returns the field's entries (a value, so later changes to the record do not reach it) after initialising the field |
| ContactRecord.SchemaShape | src/core/books/contact/contact_record.py:12-25 | required fields are declared fields; `phone_number` is the only multi-valued field and not a declared one |
| ContactRecord.PhoneNumberArgumentRejected | src/core/books/contact/contact_record.py:14-20 | a contact built with `phone_number` is refused as an unsupported field |
| ContactRecord.DigitsOnly | src/core/books/contact/contact_record.py:45 | the result holds digits only and is no longer than its input; with `ContactRecord.DigitsOnlyChar`, `ContactRecord.DigitsOnlyConcat` and `ContactRecord.DigitsOnlyOfDigits` it is exactly the input's digits in order |
| ContactRecord.DigitsOnlyChar | src/core/books/contact/contact_record.py:45 | a single character is kept iff it is a digit |
| ContactRecord.DigitsOnlyConcat | src/core/books/contact/contact_record.py:45 | filtering distributes over concatenation, so every character is judged on its own and order is kept |
| ContactRecord.DigitsOnlyOfDigits | src/core/books/contact/contact_record.py:45 | a string of digits is left unchanged |
| ContactRecord.PrefixBranch380Unreachable | src/core/books/contact/contact_record.py:47-52 | any number starting with `380` already starts with `38`, so the `380` branch never decides |
| ContactRecord.AcceptedNumbers | src/core/books/contact/contact_record.py:43-67 | a phone number is accepted iff its digits are 12 starting with `38`, or 10 starting with `0`; the result is the formatting of the digits with `38` prepended when missing |
| ContactRecord.FormatPhoneShape | src/core/books/contact/contact_record.py:60-67 | twelve digits format to the shape `+38(ddd)ddd-dd-dd` |
| ContactRecord.FormatPhoneDigits | src/core/books/contact/contact_record.py:60-67 | the digits of a formatted number are the twelve digits it was made from |
| ContactRecord.AcceptedShape | src/core/books/contact/contact_record.py:57-67 | an accepted number always has the shape `+38(ddd)ddd-dd-dd` |
| ContactRecord.ValidatePhoneNumberIdempotent | src/core/books/contact/contact_record.py:43-67 | validating an accepted result again gives the same result |
| ContactRecord.EmailShapeMatchesPattern | src/core/books/contact/contact_record.py:30 | the position-based e-mail check agrees with the regular expression read as local part, `@`, domain, `.`, two or more letters |
| ContactRecord.ValidateEmailCorrect | src/core/books/contact/contact_record.py:28-34 | an e-mail is accepted iff its stripped form matches the pattern, and the stripped form is returned |
| NoteRecord.NoteAccepted | src/core/books/note/note_record.py:11-22 | a note is accepted iff it names only `title` and `body` and its title is non-empty |
| NoteRecord.TagArgumentRejected | src/core/books/note/note_record.py:11-17 | a note built with `tag` is refused as an unsupported field naming `tag` |
| Decorators.MethodArgsAsCommandParams | src/core/decorators.py:4-6 | sets its own flag, leaves the other two and returns the same object |
| Decorators.HiddenMethod | src/core/decorators.py:8-10 | sets `hidden`, leaves the other two flags and returns the same object |
| Decorators.MethodForBotInterface | src/core/decorators.py:12-14 | sets its own flag, leaves the other two and returns the same object |
| Utilities.DictToStringEmpty | src/core/utilities.py:3-4 | an empty dict renders as the empty string |
| Utilities.DictToStringSingle | src/core/utilities.py:3-4 | one entry renders as `k = v` with no separator |
| Utilities.DictToStringAppend | src/core/utilities.py:3-4 | one more entry appends the separator and `k = v`, so entries appear in dict order |
| Utilities.DictToStringLength | src/core/utilities.py:3-4 | n entries give their rendered lengths plus n-1 separators |
| Utilities.DictToStringShowsEntries | src/core/utilities.py:3-4 | every entry's `k = v` occurs in the result |
| BookParsing.ParseFieldsConditions | src/core/book.py:229-240 | the loop computes the condition dict of the specification function |
| BookParsing.FieldConditionsExact | src/core/book.py:233-238 | a condition exists iff some argument is selected (a required field when suffixes are not checked, or a non-empty `search_by…` argument) and names it; the last such argument wins; no key twice |
| BookParsing.SearchConditionsNonEmpty | src/core/book.py:236-238 | when suffixes are checked, every condition value is non-empty text |
| BookParsing.SearchArgumentNamesField | src/core/book.py:238 | `search_by_<f>` yields the condition name `f` |
| BookParsing.ParseFieldsToUpdate | src/core/book.py:242-252 | the loop computes the update dict of the specification function |
| BookParsing.FieldsToUpdateExact | src/core/book.py:245-250 | outside emulation a field is updated iff some non-empty `update…` argument that is not a multi-valued field names it; the last one wins |
| BookParsing.EmulationUpdatesVerbatim | src/core/book.py:246-248 | in emulation every argument other than a multi-valued field name is an update under its own name |
| BookParsing.UpdateArgumentNamesField | src/core/book.py:249-250 | `update_<f>` yields the field name `f` |
| BookParsing.UpdateArgumentCanNameMultiValueField | src/core/book.py:245-250 | `update_<multi-valued field>` does produce an update of a plain field under that name |
| BookParsing.ParseMultiValueFields | src/core/book.py:254-280 | the loop computes the entry changes of the specification function, including the early empty answer for update outside emulation; it pairs an old value with the new one as corrected under Findings (line 276 as written is `BookParsing.MultiValuePairAsWritten`) |
| BookParsing.MultiValueChangesShape | src/core/book.py:262-278 | each multi-valued field gets at most one pair, the one chosen from its old and new arguments, and no other field appears |
| BookParsing.ParseEntriesToDelete | src/core/book.py:282-290 | the loop computes the deletion dict of the specification function |
| BookParsing.EntriesToDeleteComplete | src/core/book.py:285-288 | every non-empty `delete…` argument's value is listed for deletion under its field |
| BookParsing.EntriesToDeleteSound | src/core/book.py:285-288 | conversely, every value listed for deletion under a field comes from a non-empty `delete…` argument naming that field |
| BookParsing.UpdateDropsNewValueAsWritten | src/core/book.py:272-276 | as written, `old_<f>=a, new_<f>=b` in an update yields the pair `(a, a)` (see Findings) |
| BookParsing.UpdateReplacesEntry | src/core/book.py:272-276 | corrected, the same arguments yield `(a, b)` |
| BookParsing.MultiValuePairAgreesElsewhere | src/core/book.py:272-278 | the correction changes nothing when suffixes are checked or no old value is given |
| BookMatching.MatchesConditions | src/core/book.py:318-342 | the loop answers exactly whether every condition holds |
| BookMatching.SingleExpectedEntry | src/core/book.py:325-335 | a text condition on a multi-valued field holds iff its lower-cased text occurs in the printed list of lower-cased entries |
| BookMatching.ScalarConditionIgnoresCase | src/core/book.py:336-340 | a plain-field condition holds regardless of the letter case of the expected text |
| BookMatching.ScalarConditionOwnValue | src/core/book.py:336-340 | a plain field matches its own value, and a missing field matches `None` |
| BookMatching.PartOfEntryMatches | src/core/book.py:330-335 | any part of an entry, in any case, matches the multi-valued field |
| BookMatching.BracketMatchesEveryRecord | src/core/book.py:330-335 | the text `[` matches every record on a multi-valued field |
| BookMatching.MatchesSplit | src/core/book.py:322-342 | matching a concatenation of conditions is matching both parts |
| BookMatching.NewRecordUnmatchedAsWritten | src/core/record.py:34-45 | as written, a new record keeps its fields as attributes and so fails a condition on a field it was given (see Findings) |
| BookMatching.NewRecordMatchesOwnFields | src/core/record.py:34-45 | corrected, a new record matches a condition on any plain field it was given, in any case |
| BookUpdates.ApplyFieldUpdatesGet | src/core/book.py:209-210 | after the field updates, the last value given for a field is stored and unmentioned fields keep theirs |
| BookUpdates.ReplaceEntryEffect | src/core/book.py:213-218 | one replacement makes the new value an entry mapped to itself and removes the replaced entry, and changes no other entry or field |
| BookUpdates.ReplaceEntriesLastHolds | src/core/book.py:212-218 | the last replacement asked for a field holds afterwards |
| BookUpdates.ApplyMultiUpdatesKeepsDistinct | src/core/book.py:212-218 | replacements keep every entry map a genuine dict |
| BookUpdates.DeleteEntriesEffect | src/core/book.py:220-222 | deletion removes every value asked for, adds nothing and touches only its field |
| BookUpdates.ApplyMultiDeletesEffect | src/core/book.py:220-222 | after all deletions no value named by a `delete…` argument remains and nothing was added |
| BookUpdates.DeleteEntriesKeepsOthers | src/core/book.py:220-222 | deleting from a field keeps every entry of it that was not named, with its value |
| BookUpdates.ApplyMultiDeletesKeepsOthers | src/core/book.py:220-222 | after all deletions every entry that no `delete…` argument of its field named is still there, with its value |
| BookUpdates.UpdatedEntriesKeepDistinct | src/core/book.py:208-222 | a whole update keeps the record's entry maps genuine dicts |
| Books.UpdateFields | src/core/book.py:209-210 | assigns every field update to the record in order |
| Books.ReplaceFieldEntries | src/core/book.py:213-218 | performs the entry replacements of one field on the record |
| Books.DeleteFieldEntries | src/core/book.py:221-222 | pops the listed entries of one field from the record |
| Books.UpdateRecord | src/core/book.py:208-222 | one record gets the field updates, then the replacements, then the deletions, and stays valid |
| Books.UpdateAll | src/core/book.py:208-222 | among the stored records, every matched one gets the field updates and entry changes and stays well-formed, and every other one is left as it was |
| Books.Book.GetRecords | src/core/book.py:79-112 | the lookup answers `found` with the matching records, or `not-found` in update mode, or the full-text search result otherwise |
| Books.FilterMatching | src/core/book.py:95 | the comprehension keeps, in stored order, exactly the records that satisfy every condition (see `Books.MatchingRecordsMembers`) |
| Books.MatchingRecordsMembers | src/core/book.py:95 | a record is found iff it is stored and satisfies every condition |
| Books.MatchingRecordsDistinct | src/core/book.py:95 | the found records repeat no object |
| Books.NoConditionsMatchAll | src/core/book.py:95 | with no conditions every stored record is found |
| Books.NoSelectedConditions | src/core/book.py:229-240 | arguments none of which is selected produce no condition |
| Books.UpdateLookupIgnoresEntries | src/core/book.py:89-92 | in update mode the lookup uses only the plain-field conditions |
| Books.UpdateLookupOutcome | src/core/book.py:97-112 | in update mode the answer is `found` iff records were found, else `not-found`, and never consults the full-text search |
| Books.SearchFallback | src/core/book.py:97-108 | outside update mode with no exact match, the answer is `found` iff there were conditions and a search result, which is then returned |
| Books.UpdateLookupRecords | src/core/book.py:199 | the records an update looks up are stored records, each once |
| Books.Book.AddRecord | src/core/book.py:63-77 | a match on the required fields answers `duplicate` and changes nothing; invalid arguments fail with the validation message; otherwise the new record is stored under its key and `added`, `[record]`, `{}` is answered |
| Books.AddWithoutKeyFieldsFindsEverything | src/core/book.py:67-69 | arguments naming no required field look up every record, so `add` answers `duplicate` on any non-empty book |
| Books.Book.UpdateRecords | src/core/book.py:188-227 | no match answers `not-updated` with all records and changes nothing; otherwise every matched record, and no other, gets the parsed updates, and `updated` is answered; the entry replacements use the corrected old/new pairing under Findings (book.py:276 as written is `BookParsing.MultiValuePairAsWritten`) |
| Books.Book.DeleteRecords | src/core/book.py:292-316 | no match answers `not-deleted` and changes nothing; otherwise the matched records' keys are popped and `deleted`, the records, `{}` is answered |
| Books.Book.PopKeys | src/core/book.py:306-313 | pops every listed key from the book |
| Books.PopAllKeepsRecordsValid | src/core/book.py:306-313 | popping keys keeps the book a genuine dict of distinct valid records |
| Books.DeletedKeysGone | src/core/book.py:311-313 | after deletion the popped keys are absent and every other key keeps its record |
| BookManager.GetBook | src/bot/book_manager.py:56-59 | succeeds iff a book has the name, returning it; otherwise fails with "No such book: " and the name |
| BookManager.PrepareMethods | src/bot/book_manager.py:96-107 | the loop lists exactly the catalogued member names, in order |
| BookManager.CataloguedNamesExact | src/bot/book_manager.py:99-105 | a name is listed iff a member has it, does not start with `_`, is callable and is not hidden |
| BookManager.SearchParamPairsExact | src/bot/book_manager.py:147-153 | the search parameters are exactly `search_by_<f>` to `f`, plus `update_<f>` to `f` for update |
| BookManager.ParamNamesFunctional | src/bot/book_manager.py:147-153 | a parameter label determines its field |
| BookManager.OperationParamsExact | src/bot/book_manager.py:133-153 | with declared fields, `add` maps each field to itself, `get`/`delete` map `search_by_<f>` to `f`, `update` also maps `update_<f>` to `f`, and nothing else |
| BookManager.SignatureParams | src/bot/book_manager.py:155-172 | otherwise the parameters are the `name=name` strings of the method's parameters other than `self` and `cls` |
| BookManager.MethodCommandPairs | src/bot/book_manager.py:68-71 | each listed method yields its command name (`record` replaced by the book name, `_` by `-`) with its parameters |
| BookManager.AddMethodCommands | src/bot/book_manager.py:68-71 | the loop assigns those pairs into the catalog in order |
| BookManager.AddFieldCommands | src/bot/book_manager.py:74-92 | the nested loop assigns the four commands of every multi-valued field in order |
| BookManager.GetSupportedOperations | src/bot/book_manager.py:61-94 | the loops build the catalog of the specification function |
| BookManager.SupportedOperationsGet | src/bot/book_manager.py:61-94 | a command is in the catalog iff some book generates it, with the parameters of the last generation (a later command of the same name overwrites an earlier one) |
| BookManager.MethodCommandListed | src/bot/book_manager.py:68-71 | every catalogued method of every book has its command in the catalog |
| BookManager.MultiFieldCommandsListed | src/bot/book_manager.py:74-92 | every multi-valued field of every book has its add, update, delete and get commands in the catalog |
| BookManager.FieldCommandsShape | src/bot/book_manager.py:77-92 | the four field commands have distinct names; `add` takes the field itself, `get`/`delete` take `search_by_<f>`, `update` also takes `update_<f>` |
| BookManager.RunCommand | src/bot/book_manager.py:109-131 | the loop gives the dispatch of the specification function |
| BookManager.DispatchSkips | src/bot/book_manager.py:114-129 | books that do not take the command on are passed over in order |
| BookManager.UnknownIffUnclaimed | src/bot/book_manager.py:114-131 | the answer is "Unknown command: …" iff no book takes the command on |
| BookManager.CommandRoundTrip | src/bot/book_manager.py:109-120 | dispatching the catalog name of a book's `<verb>_record<suffix>` method invokes that method on that book, when the book name is one word absent from verb and suffix and no earlier book takes it on |
| BookManager.MultiFieldCommandNotImplemented | src/bot/book_manager.py:115-125 | a multi-valued field command reaching its own book answers the "not yet implemented" message |
| CommandAutoComplete.ExtractCommandsParams | src/core/command_auto_complete/command_auto_complete.py:33-39 | the loop merges the groups' command dicts in order |
| CommandAutoComplete.CommandsKnown | src/core/command_auto_complete/command_auto_complete.py:33-39 | a command is known iff some group lists it |
| CommandAutoComplete.LaterGroupOverrides | src/core/command_auto_complete/command_auto_complete.py:36-37 | a command takes the parameters of the last group listing it |
| CommandAutoComplete.BlankInput | src/core/command_auto_complete/command_auto_complete.py:43-44 | blank input has no matches, no best match, is not incomplete and is not suggested |
| CommandAutoComplete.KnownCommand | src/core/command_auto_complete/command_auto_complete.py:47-60 | a known command matches exactly itself, is its own best match and is not suggested |
| CommandAutoComplete.GetBestMatch | src/core/command_auto_complete/command_auto_complete.py:62-64 | there is a best match iff there are matches, and it is the first of them |
| CommandAutoComplete.TrailingCommaIncomplete | src/core/command_auto_complete/command_auto_complete.py:69-70 | input ending in a comma is incomplete |
| CommandAutoComplete.MatchedIncomplete | src/core/command_auto_complete/command_auto_complete.py:67-77 | otherwise input is incomplete iff it has matches and is not a group name |
| CommandAutoComplete.SuggestWithoutMatches | src/core/command_auto_complete/command_auto_complete.py:80-89 | suggest iff two or more matches, or none and the input is incomplete; the matches are returned alongside |
| CommandAutoComplete.NoArgumentsIff | src/core/command_auto_complete/command_auto_complete.py:93-94 | no arguments are asked for iff the command is unknown or its parameter map is empty |
| CommandAutoComplete.ResolveBook | src/core/command_auto_complete/command_auto_complete.py:117-122 | the loop finds the record kind of the first book named by the segment |
| CommandAutoComplete.BookRecordForExact | src/core/command_auto_complete/command_auto_complete.py:117-122 | no kind is found iff no book name, or name plus `s`, equals the segment; otherwise the first such book's kind |
| CommandAutoComplete.BookCommandUsesItsBook | src/core/command_auto_complete/command_auto_complete.py:100-122 | `<verb>-<book>` and `<verb>-<book>s` with parameters are prompted with that book's record kind |

## Left out

- I/O: every `print`, `input()` and `questionary` prompt; the interactive loops of `prompt_for_arguments` (src/core/command_auto_complete/command_auto_complete.py:123-203) and `prompt_with_completion` (205-276); the REPL, signal handling and `input_error` of main.py. The completer's model stops at the plan of which arguments to ask for (`CommandAutoComplete.PlanArguments`).
- CommandAutoComplete.PlanArguments: does not model the required/optional wording of each prompt, which is I/O text.
- `difflib.get_close_matches` (float cut-off, ranking) is the function-valued field `closeMatches` of `CommandAutoComplete.Completer`, left uninterpreted.
- The full-text search: `search_records` (src/core/book.py:114-186), `FastSearchAdapter` and every `fast_search` call. The search result is the parameter `searched` of `Books.Book.GetRecords` and `Books.Book.DeleteRecords`. The `id` field the search writes into records is not modelled.
- Books.Book.GetRecords: the search fallback answers whatever `searched` holds; its code and conditions are not modelled beyond `found` with those records.
- `record_as_option` is not part of this model: the key of a record is the function `keyOf` of the book, applied to the record's fields.
- Loading and saving books (`_load_books`, `save_books_state`, `importlib`, `pickle`): the books are given as an ordered list of `BookManager.BookInfo`.
- Reflection: `dir`, `getattr`, `callable`, `inspect.signature` and the decorator flags a method carries are read from `BookManager.Member`, not computed from Python objects.
- Records.Record.constructor: does not apply the `validate_<field>` methods (`validate_email`, `validate_birthday`) to the stored values; it stores the passed text. `validate_email` is modelled on its own. `validate_birthday` (dates, `strptime`) and contact_book.py's birthday listing (system clock) are not part of this model.
- The call made by dispatch is the `Invoke` answer of `BookManager.Dispatched`; the method's own result is the business of the book operations above.
- Raw-line parsing into `key=value` arguments is not in the modelled files.
- `lower` is modelled for ASCII only; `str()` of a list or dict is modelled without escaping quotes inside entries.
- ContactRecord.DigitsOnly: the digit class `\d` of `re.sub(r'\D', '', …)` is modelled as ASCII `0` to `9`; Python also keeps the decimal digits of other scripts (such as U+0667), which the model drops, so a number written with them is rejected where the source would accept it.
- Several attribute and import errors are modelled as evidently intended, and not as the failure they would raise:
  - `get_record_class_fields` and `get_record_multi_value_fields` on a book (src/bot/book_manager.py:74,142) read the record kind's declared and multi-valued fields.
  - `get_record_fields_to_validate` on the contact kind (src/core/command_auto_complete/command_auto_complete.py:126) is not modelled.
  - `get_search_prefix` and `get_update_prefix` are used as the `search_by` and `update` prefixes.
  - The record's `_multi_value_fields` (src/core/record.py:10) and the `multi_value_fields` the book reads (src/core/book.py:217,330) are one map.

### Behaviour that differs from the written design

The code decides the model where the design describes something else:

- The catalog has no collision check. A later command with the same name overwrites the earlier one (`BookManager.SupportedOperationsGet`).
- Multi-valued field commands are never routed to per-field handling. They answer "Multi-value field commands not yet implemented for: …" (`BookManager.MultiFieldCommandNotImplemented`).
- Record operations answer a `(code, records, conditions)` triple, not a key or a count.
- An update or delete that finds nothing is not an error. It answers `not-updated` or `not-deleted` together with all stored records.
- Dispatch tests whether `_<book>` occurs anywhere in the command. So an unrelated command can be taken on by a book whose name occurs in it (`BookManager.Claims`).
- The round trip needs the book name to occur nowhere else in the command, because `replace` substitutes every occurrence. For a book named `d`, `add-d` becomes `add_d` and then `arecordrecord_record`.
- Further quirks of the code that the model keeps:
  - `update-causes-duplicate` is never answered.
  - The update lookup ignores multi-valued conditions (`Books.UpdateLookupIgnoresEntries`).
  - `add` without any required field answers `duplicate` on a non-empty book (`Books.AddWithoutKeyFieldsFindsEverything`).
  - Searching a multi-valued field for `[` matches every record (`BookMatching.BracketMatchesEveryRecord`).
  - A missing plain field reads as `None` (`BookMatching.ScalarConditionOwnValue`).
  - `update_<multi-valued field>` updates a plain field of that name (`BookParsing.UpdateArgumentCanNameMultiValueField`).
  - An update that changes a key field leaves the record under its old key.

## Findings

| source | as written | input that shows it | evidently intended | confidence | as-written member | corrected member |
|---|---|---|---|---|---|---|
| src/core/book.py:272-276 | in an update (`need_to_check_suffix` false) an old value `a` is paired with itself, so `new_<f>` is ignored and the entry is not replaced | `update_records(old_phone_number="a", new_phone_number="b")` on a matching contact | `a` is replaced by `b` | not executed; high: the search branch two lines above pairs the old value with the new one | BookParsing.UpdateDropsNewValueAsWritten | BookParsing.UpdateReplacesEntry |
| src/core/record.py:34-45 | the passed fields are stored as attributes with `setattr`, and `fields`, which every book operation reads, stays empty | `ContactRecord(firstname="Alice", lastname="Smith")` added, then `get_records(search_by_firstname="Alice")` | the record's `fields` hold the passed values, so the record is found | not executed; medium: no property or `__setattr__` in the record classes maps the attributes onto `fields` | BookMatching.NewRecordUnmatchedAsWritten | BookMatching.NewRecordMatchesOwnFields |
