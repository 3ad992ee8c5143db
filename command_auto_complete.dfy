/** The command completer: it flattens the per-group command tables, matches
    what the user typed against the known commands, decides whether to
    offer suggestions, and works out which arguments to ask for. The fuzzy
    matching of `difflib` is an uninterpreted function of the input. */
module CommandAutoComplete {
  import opened Wrappers
  import opened PyStr
  import opened Dicts
  import opened Records
  import opened BookManager

  /** The completer's configuration: the group names, the commands of each
      group with their arguments, the record schema of each book, and
      `closeMatches`, what `difflib.get_close_matches` returns for an input
      against the known commands with the configured count and cut-off. */
  datatype Completer = Completer(groups: seq<string>, grouped: Dict<Dict<Params>>, records: Dict<Schema>,
                                 closeMatches: string -> seq<string>)
  {
    /** The table of every command, which the completer keeps from construction. */
    function Commands(): Dict<Params> {
      PutAll([], GroupPairs(grouped))
    }
  }

  /** The commands of every group, one group after the other. */
  function GroupPairs(grouped: Dict<Dict<Params>>): seq<(string, Params)> {
    if |grouped| == 0 then []
    else GroupPairs(grouped[..|grouped| - 1]) + grouped[|grouped| - 1].1
  }

  /** `extract_commands_params`. */
  method ExtractCommandsParams(grouped: Dict<Dict<Params>>) returns (extracted: Dict<Params>)
    ensures extracted == PutAll([], GroupPairs(grouped))
  {
    extracted := [];
    var i := 0;
    while i < |grouped|
      invariant 0 <= i <= |grouped|
      invariant extracted == PutAll([], GroupPairs(grouped[..i]))
    {
      var items := grouped[i].1;
      var before := extracted;
      var k := 0;
      while k < |items|
        invariant 0 <= k <= |items|
        invariant extracted == PutAll(before, items[..k])
      {
        assert items[..k + 1] == items[..k] + [items[k]];
        PutAllAppend(before, items[..k], items[k]);
        extracted := Put(extracted, items[k].0, items[k].1);
        k := k + 1;
      }
      assert items[..k] == items;
      assert grouped[..i + 1][..i] == grouped[..i];
      PutAllConcat([], GroupPairs(grouped[..i]), items);
      i := i + 1;
    }
    assert grouped[..i] == grouped;
  }

  lemma {:induction false} GroupPairsKeys(grouped: Dict<Dict<Params>>, cmd: string)
    ensures cmd in Keys(GroupPairs(grouped)) <==> exists i :: 0 <= i < |grouped| && HasKey(grouped[i].1, cmd)
  {
    if |grouped| > 0 {
      var front := grouped[..|grouped| - 1];
      var last := grouped[|grouped| - 1].1;
      GroupPairsKeys(front, cmd);
      assert Keys(GroupPairs(grouped)) == Keys(GroupPairs(front)) + Keys(last);
      if exists i :: 0 <= i < |grouped| && HasKey(grouped[i].1, cmd) {
        var i :| 0 <= i < |grouped| && HasKey(grouped[i].1, cmd);
        if i < |grouped| - 1 {
          assert grouped[i] == front[i];
        }
      }
    }
  }

  /** The table knows a command exactly when some group does. */
  lemma CommandsKnown(c: Completer, cmd: string)
    ensures HasKey(c.Commands(), cmd) <==> exists i :: 0 <= i < |c.grouped| && HasKey(c.grouped[i].1, cmd)
  {
    HasKeyPutAll([], GroupPairs(c.grouped), cmd);
    GroupPairsKeys(c.grouped, cmd);
  }

  lemma {:induction false} GroupPairsLastGroup(grouped: Dict<Dict<Params>>, j: int, cmd: string)
    requires 0 <= j < |grouped| && DistinctKeys(grouped[j].1) && HasKey(grouped[j].1, cmd)
    requires forall i :: j < i < |grouped| ==> !HasKey(grouped[i].1, cmd)
    ensures LastValue(GroupPairs(grouped), cmd) == Get(grouped[j].1, cmd)
  {
    var front := grouped[..|grouped| - 1];
    var last := grouped[|grouped| - 1].1;
    LastValueConcat(GroupPairs(front), last, cmd);
    LastValueSomeIffKey(last, cmd);
    if j < |grouped| - 1 {
      assert !HasKey(last, cmd);
      assert grouped[j] == front[j];
      GroupPairsLastGroup(front, j, cmd);
    } else {
      LastValueOfDict(last, cmd);
    }
  }

  /** A command listed by several groups takes the arguments of the last
      group that lists it. */
  lemma LaterGroupOverrides(c: Completer, j: int, cmd: string)
    requires 0 <= j < |c.grouped| && DistinctKeys(c.grouped[j].1) && HasKey(c.grouped[j].1, cmd)
    requires forall i :: j < i < |c.grouped| ==> !HasKey(c.grouped[i].1, cmd)
    ensures Get(c.Commands(), cmd) == Get(c.grouped[j].1, cmd)
  {
    GetPutAll([], GroupPairs(c.grouped), cmd);
    GroupPairsLastGroup(c.grouped, j, cmd);
    GetSomeIffHasKey(c.grouped[j].1, cmd);
  }

  // ----- matching what the user typed -----

  /** `find_matches`. */
  function FindMatches(c: Completer, input: string): seq<string> {
    if Strip(input) == "" then []
    else if HasKey(c.Commands(), input) then [input]
    else c.closeMatches(input)
  }

  /** `get_best_match`: the first match, if there is one. */
  function GetBestMatch(c: Completer, input: string): (r: Option<string>)
    ensures r.Some? <==> |FindMatches(c, input)| > 0
    ensures r.Some? ==> r.value in FindMatches(c, input) && r.value == FindMatches(c, input)[0]
  {
    var matches := FindMatches(c, input);
    if |matches| > 0 then Some(matches[0]) else None
  }

  /** `is_incomplete_command`. */
  predicate IsIncompleteCommand(c: Completer, input: string) {
    EndsWith(Strip(input), ",") || (|FindMatches(c, input)| > 0 && Strip(input) !in c.groups)
  }

  /** `should_suggest`: whether to offer suggestions, and the matches. */
  function ShouldSuggest(c: Completer, input: string): (bool, seq<string>) {
    var matches := FindMatches(c, input);
    (|matches| >= 2 || (|matches| == 0 && IsIncompleteCommand(c, input)), matches)
  }

  // ----- properties of matching -----

  /** Blank input matches nothing, is never incomplete and is never
      questioned. */
  lemma BlankInput(c: Completer, input: string)
    requires Strip(input) == ""
    ensures FindMatches(c, input) == []
    ensures GetBestMatch(c, input) == None
    ensures !IsIncompleteCommand(c, input)
    ensures ShouldSuggest(c, input) == (false, [])
  {
    assert !EndsWith(Strip(input), ",");
  }

  /** A known command is its own only match and is taken without a
      question. */
  lemma KnownCommand(c: Completer, input: string)
    requires Strip(input) != "" && HasKey(c.Commands(), input)
    ensures FindMatches(c, input) == [input]
    ensures GetBestMatch(c, input) == Some(input)
    ensures ShouldSuggest(c, input) == (false, [input])
  {
  }

  /** Input that ends in a comma is always incomplete. */
  lemma TrailingCommaIncomplete(c: Completer, input: string)
    requires EndsWith(Strip(input), ",")
    ensures IsIncompleteCommand(c, input)
  {
  }

  /** Partial input with matches is incomplete unless it names a group. */
  lemma MatchedIncomplete(c: Completer, input: string)
    requires !EndsWith(Strip(input), ",")
    ensures IsIncompleteCommand(c, input) <==> |FindMatches(c, input)| > 0 && Strip(input) !in c.groups
  {
  }

  /** With no match at all, suggestions are offered exactly when the input
      ends in a comma, and with one match never. */
  lemma SuggestWithoutMatches(c: Completer, input: string)
    ensures |FindMatches(c, input)| == 0 ==> (ShouldSuggest(c, input).0 <==> EndsWith(Strip(input), ","))
    ensures |FindMatches(c, input)| == 1 ==> !ShouldSuggest(c, input).0
    ensures |FindMatches(c, input)| >= 2 ==> ShouldSuggest(c, input).0
    ensures ShouldSuggest(c, input).1 == FindMatches(c, input)
  {
  }

  // ----- which arguments to ask for -----

  /** What `prompt_for_arguments` sets out to do before it prompts. */
  datatype ArgumentsPlan =
    | NoArguments                                    // `{}` is returned at once
    | AllOptional(params: Params)                    // a command without a hyphen: every argument is optional
    | ForBook(params: Params, record: Option<Schema>) // a book command, with the record schema of its book if one is found

  predicate NamesBook(bookName: string, segment: string) {
    segment == bookName || segment == bookName + "s"
  }

  /** The record schema of the first book named by `segment`, singular or
      plural. */
  function BookRecordFor(records: Dict<Schema>, segment: string): Option<Schema> {
    if |records| == 0 then None
    else if NamesBook(records[0].0, segment) then Some(records[0].1)
    else BookRecordFor(records[1..], segment)
  }

  /** The loop of `prompt_for_arguments` that looks for the command's book. */
  method ResolveBook(records: Dict<Schema>, segment: string) returns (record: Option<Schema>)
    ensures record == BookRecordFor(records, segment)
  {
    var i := 0;
    while i < |records|
      invariant 0 <= i <= |records|
      invariant BookRecordFor(records, segment) == BookRecordFor(records[i..], segment)
    {
      var (bookName, schema) := records[i];
      assert records[i..][1..] == records[i + 1..];
      if segment == bookName || segment == bookName + "s" {
        return Some(schema);
      }
      i := i + 1;
    }
    return None;
  }

  /** The second hyphen-separated part of a command: the book it names. */
  function BookSegment(cmd: string): string
    requires '-' in cmd
  {
    SplitAtLeastTwo(cmd, '-');
    Split(cmd, '-')[1]
  }

  /** The argument guard of `collect_command_arguments` and
      `prompt_for_arguments`, and the book resolution of the latter. */
  function PlanArguments(c: Completer, cmd: string): ArgumentsPlan {
    var commands := c.Commands();
    match Get(commands, cmd)
    case None => NoArguments
    case Some(params) =>
      if params.IsEmpty() then NoArguments
      else if '-' !in cmd then AllOptional(params)
      else ForBook(params, BookRecordFor(c.records, BookSegment(cmd)))
  }

  // ----- properties of argument collection -----

  /** The book found is the first whose name, or name with an `s`, is the
      segment; no book is found when none is. */
  lemma {:induction false} BookRecordForExact(records: Dict<Schema>, segment: string)
    ensures BookRecordFor(records, segment).None? <==> forall i :: 0 <= i < |records| ==> !NamesBook(records[i].0, segment)
    ensures BookRecordFor(records, segment).Some? ==>
      exists i :: 0 <= i < |records| && NamesBook(records[i].0, segment)
        && BookRecordFor(records, segment).value == records[i].1
        && forall j :: 0 <= j < i ==> !NamesBook(records[j].0, segment)
  {
    if |records| > 0 && !NamesBook(records[0].0, segment) {
      BookRecordForExact(records[1..], segment);
      assert forall i :: 1 <= i < |records| ==> records[i] == records[1..][i - 1];
      if BookRecordFor(records, segment).Some? {
        var i :| 0 <= i < |records[1..]| && NamesBook(records[1..][i].0, segment)
          && BookRecordFor(records, segment).value == records[1..][i].1
          && forall j :: 0 <= j < i ==> !NamesBook(records[1..][j].0, segment);
        assert forall j :: 0 <= j < i + 1 ==> !NamesBook(records[j].0, segment) by {
          forall j | 0 <= j < i + 1 ensures !NamesBook(records[j].0, segment) {
            if j > 0 { assert records[j] == records[1..][j - 1]; }
          }
        }
      }
    }
  }

  /** Nothing is asked for, and `{}` is returned, exactly for a command no
      group lists or one whose argument table is empty. */
  lemma NoArgumentsIff(c: Completer, cmd: string)
    ensures PlanArguments(c, cmd).NoArguments? <==>
      (forall i :: 0 <= i < |c.grouped| ==> !HasKey(c.grouped[i].1, cmd))
      || (Get(c.Commands(), cmd).Some? && Get(c.Commands(), cmd).value.IsEmpty())
  {
    CommandsKnown(c, cmd);
    GetSomeIffHasKey(c.Commands(), cmd);
  }

  /** A book command is prompted for with the fields of the book it names,
      whether singular (`add-contact`) or plural (`get-contacts`). */
  lemma BookCommandUsesItsBook(c: Completer, verb: string, i: int, rest: string)
    requires 0 <= i < |c.records| && '-' !in verb && '-' !in c.records[i].0
    requires rest == "" || rest == "s"
    requires forall j :: 0 <= j < i ==> !NamesBook(c.records[j].0, c.records[i].0 + rest)
    requires var cmd := verb + "-" + c.records[i].0 + rest;
      Get(c.Commands(), cmd).Some? && !Get(c.Commands(), cmd).value.IsEmpty()
    ensures var cmd := verb + "-" + c.records[i].0 + rest;
      PlanArguments(c, cmd) == ForBook(Get(c.Commands(), cmd).value, Some(c.records[i].1))
  {
    var name := c.records[i].0;
    var cmd := verb + "-" + name + rest;
    assert cmd == verb + ['-'] + (name + rest);
    assert '-' in cmd by { assert cmd[|verb|] == '-'; }
    assert '-' !in name + rest;
    SplitAtFirst(verb, '-', name + rest);
    SplitAbsent(name + rest, '-');
    assert BookSegment(cmd) == name + rest;
    GetSomeIffHasKey(c.Commands(), cmd);
    BookRecordForSkips(c.records, i, name + rest);
  }

  lemma {:induction false} BookRecordForSkips(records: Dict<Schema>, i: int, segment: string)
    requires 0 <= i < |records| && NamesBook(records[i].0, segment)
    requires forall j :: 0 <= j < i ==> !NamesBook(records[j].0, segment)
    ensures BookRecordFor(records, segment) == Some(records[i].1)
  {
    if i > 0 {
      assert forall j :: 0 <= j < i - 1 ==> records[1..][j] == records[j + 1];
      BookRecordForSkips(records[1..], i - 1, segment);
    }
  }
}
