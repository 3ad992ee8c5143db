/** The book manager: it lists the commands the bot understands, with the
    arguments each one takes, and dispatches a command such as `add-contact`
    to the method of the book it names. Python's reflection (`dir`,
    `getattr`, `callable`, `inspect.signature`) is replaced by a table of
    each book's members. */
module BookManager {
  import opened Wrappers
  import opened PyStr
  import opened Dicts
  import opened Records
  import opened BookParsing

  /** An attribute of a book object as `dir` lists it: its name, whether it
      is callable, whether it was marked hidden from the bot, and, for a
      method, the names of its parameters. */
  datatype Member = Member(name: string, isCallable: bool, hidden: bool, parameters: seq<string>)

  /** A registered book: the name it is registered under, the schema of its
      records and its members in `dir` order. */
  datatype BookInfo = BookInfo(name: string, schema: Schema, members: seq<Member>)

  /** The arguments a command takes: a dict from argument name to record
      field, or, for a method that is not a record operation, the set of
      `name=name` strings built from its signature. */
  datatype Params = Named(fields: Dict<string>) | Signature(arguments: set<string>)
  {
    /** `not params`. */
    predicate IsEmpty() {
      match this
      case Named(f) => |f| == 0
      case Signature(a) => |a| == 0
    }
  }

  /** What running a command amounts to. */
  datatype Dispatch =
    | Invoke(book: string, methodName: string)  // the book's method is called with the arguments
    | Fails(book: string, methodName: string)   // the attribute is missing or not callable: `getattr` or the call raises
    | Message(text: string)                 // a string is returned instead

  // ----- get_book -----

  /** `get_book`: the book registered under `name`, or the error it raises. */
  function GetBook(books: seq<BookInfo>, name: string): (r: Result<BookInfo, string>)
    ensures r.Success? <==> exists i :: 0 <= i < |books| && books[i].name == name
    ensures r.Success? ==> r.value in books && r.value.name == name
    ensures r.Failure? ==> r.error == "No such book: " + name
  {
    if |books| == 0 then Failure("No such book: " + name)
    else if books[0].name == name then Success(books[0])
    else
      var r := GetBook(books[1..], name);
      assert forall i :: 1 <= i < |books| ==> books[i] == books[1..][i - 1];
      r
  }

  // ----- the catalogue of a book's operations -----

  /** A member becomes a command when it is public, callable and not hidden. */
  predicate IsCatalogued(m: Member) {
    !StartsWith(m.name, "_") && m.isCallable && !m.hidden
  }

  function CataloguedNames(members: seq<Member>): seq<string> {
    if |members| == 0 then []
    else
      var front := CataloguedNames(members[..|members| - 1]);
      var m := members[|members| - 1];
      if IsCatalogued(m) then front + [m.name] else front
  }

  /** `_get_class_methods_for_operations_preparing`. */
  method PrepareMethods(book: BookInfo) returns (names: seq<string>)
    ensures names == CataloguedNames(book.members)
  {
    names := [];
    var i := 0;
    while i < |book.members|
      invariant 0 <= i <= |book.members|
      invariant names == CataloguedNames(book.members[..i])
    {
      var m := book.members[i];
      assert book.members[..i + 1][..i] == book.members[..i];
      if !StartsWith(m.name, "_") {
        if m.isCallable && !m.hidden {
          names := names + [m.name];
        }
      }
      i := i + 1;
    }
    assert book.members[..i] == book.members;
  }

  /** Exactly the public, callable, visible members are catalogued. */
  lemma {:induction false} CataloguedNamesExact(members: seq<Member>, n: string)
    ensures n in CataloguedNames(members) <==> exists m :: m in members && m.name == n && IsCatalogued(m)
  {
    if |members| > 0 {
      var front := members[..|members| - 1];
      CataloguedNamesExact(front, n);
      assert members == front + [members[|members| - 1]];
      if exists m :: m in members && m.name == n && IsCatalogued(m) {
        var m :| m in members && m.name == n && IsCatalogued(m);
        if m != members[|members| - 1] {
          assert m in front;
        }
      }
    }
  }

  // ----- the parameters of a command -----

  /** The command a method becomes: `record` gives way to the book name and
      underscores to hyphens (`add_record` of `contact` is `add-contact`). */
  function CommandName(bookName: string, methodName: string): string {
    Replace(Replace(methodName, "record", bookName), "_", "-")
  }

  /** The operation a method name starts with (`update_record` is an update). */
  function OperationVerb(methodName: string): string {
    Split(methodName, '_')[0]
  }

  /** `search_by_<field>` for each field, followed for an update by
      `update_<field>`. */
  function SearchParamPairs(fields: seq<string>, withUpdate: bool): seq<(string, string)> {
    if |fields| == 0 then []
    else
      var f := fields[0];
      [(SearchPrefix + "_" + f, f)] + (if withUpdate then [(UpdatePrefix + "_" + f, f)] else [])
        + SearchParamPairs(fields[1..], withUpdate)
  }

  /** The assignments `_get_book_operation_params` makes for a record operation. */
  function FieldParamPairs(fields: seq<string>, verb: string): seq<(string, string)> {
    if verb == "add" then seq(|fields|, i requires 0 <= i < |fields| => (fields[i], fields[i]))
    else if verb == "update" || verb == "get" || verb == "delete" then SearchParamPairs(fields, verb == "update")
    else []
  }

  /** The first member with the given name (`getattr`). */
  function MemberNamed(members: seq<Member>, name: string): (r: Option<Member>)
    ensures r.Some? ==> r.value in members && r.value.name == name
    ensures r.None? <==> forall m :: m in members ==> m.name != name
  {
    if |members| == 0 then None
    else if members[0].name == name then Some(members[0])
    else
      var r := MemberNamed(members[1..], name);
      assert forall m :: m in members ==> m == members[0] || m in members[1..];
      r
  }

  /** The `name=name` strings of a signature, without `self` and `cls`. */
  function SignatureArguments(parameters: seq<string>): set<string> {
    set p | p in parameters && p != "self" && p != "cls" :: p + "=" + p
  }

  /** `_get_book_operation_params`. */
  function OperationParams(book: BookInfo, methodName: string): Params {
    var named := PutAll([], FieldParamPairs(book.schema.fields, OperationVerb(methodName)));
    if |named| > 0 then Named(named)
    else
      match MemberNamed(book.members, methodName)
      case None => Named([])
      case Some(m) => Signature(SignatureArguments(m.parameters))
  }

  lemma {:induction false} SearchParamPairsExact(fields: seq<string>, withUpdate: bool, k: string, v: string)
    ensures (k, v) in SearchParamPairs(fields, withUpdate) <==>
      v in fields && (k == SearchPrefix + "_" + v || (withUpdate && k == UpdatePrefix + "_" + v))
  {
    if |fields| > 0 {
      SearchParamPairsExact(fields[1..], withUpdate, k, v);
      assert v in fields <==> v == fields[0] || v in fields[1..];
    }
  }

  /** `search_by_` and `update_` arguments never collide, and each names one field. */
  lemma ParamNamesFunctional(k: string, v: string, w: string, withUpdate: bool)
    requires k == SearchPrefix + "_" + v || (withUpdate && k == UpdatePrefix + "_" + v)
    requires k == SearchPrefix + "_" + w || (withUpdate && k == UpdatePrefix + "_" + w)
    ensures v == w
  {
    var s := SearchPrefix + "_";
    var u := UpdatePrefix + "_";
    assert (s + v)[0] == 's' && (s + w)[0] == 's';
    assert (u + v)[0] == 'u' && (u + w)[0] == 'u';
    if k[0] == 's' {
      assert k == s + v && k == s + w;
      assert v == k[|s|..] && w == k[|s|..];
    } else {
      assert k == u + v && k == u + w;
      assert v == k[|u|..] && w == k[|u|..];
    }
  }

  /** The argument dict of a record operation: an `add` takes every field
      under its own name; a `get`, `delete` or `update` takes
      `search_by_<field>` for every field, and an `update` also
      `update_<field>`. */
  lemma OperationParamsExact(book: BookInfo, methodName: string, k: string, v: string)
    requires |book.schema.fields| > 0
    requires OperationVerb(methodName) in ["add", "update", "get", "delete"]
    ensures OperationParams(book, methodName).Named?
    ensures var verb := OperationVerb(methodName);
      Get(OperationParams(book, methodName).fields, k) == Some(v) <==>
        if verb == "add" then k in book.schema.fields && v == k
        else v in book.schema.fields && (k == SearchPrefix + "_" + v || (verb == "update" && k == UpdatePrefix + "_" + v))
  {
    var verb := OperationVerb(methodName);
    var fields := book.schema.fields;
    var pairs := FieldParamPairs(fields, verb);
    var named := PutAll([], pairs);
    assert |pairs| > 0 by {
      if verb == "add" {
        assert |pairs| == |fields|;
      } else {
        assert pairs[0] == (SearchPrefix + "_" + fields[0], fields[0]);
      }
    }
    HasKeyPutAll([], pairs, pairs[0].0);
    GetPutAll([], pairs, k);
    LastValueSomeIffKey(pairs, k);
    if LastValue(pairs, k).Some? {
      LastValueIn(pairs, k);
    }
    if verb == "add" {
      if k in fields && v == k {
        var i :| 0 <= i < |fields| && fields[i] == k;
        assert pairs[i] == (k, k);
        assert Keys(pairs)[i] == k;
        LastValueIn(pairs, k);
      }
    } else {
      SearchParamPairsExact(fields, verb == "update", k, v);
      if v in fields && (k == SearchPrefix + "_" + v || (verb == "update" && k == UpdatePrefix + "_" + v)) {
        assert (k, v) in pairs;
        var i :| 0 <= i < |pairs| && pairs[i] == (k, v);
        assert Keys(pairs)[i] == k;
        LastValueIn(pairs, k);
        var w := LastValue(pairs, k).value;
        SearchParamPairsExact(fields, verb == "update", k, w);
        ParamNamesFunctional(k, v, w, verb == "update");
      }
    }
  }

  /** A method that is not a record operation takes the arguments of its
      signature, less `self` and `cls`. */
  lemma SignatureParams(book: BookInfo, methodName: string, m: Member)
    requires OperationVerb(methodName) !in ["add", "update", "get", "delete"] || |book.schema.fields| == 0
    requires MemberNamed(book.members, methodName) == Some(m)
    ensures OperationParams(book, methodName) == Signature(SignatureArguments(m.parameters))
    ensures forall a :: a in OperationParams(book, methodName).arguments <==>
      exists p :: p in m.parameters && p != "self" && p != "cls" && a == p + "=" + p
  {
    var verb := OperationVerb(methodName);
    if verb == "update" || verb == "get" || verb == "delete" {
      assert SearchParamPairs([], verb == "update") == [];
    }
  }

  // ----- commands for the entries of multi-valued fields -----

  const StandardOps: seq<string> := ["add", "update", "delete", "get"]

  function MultiFieldCommandName(op: string, bookName: string, field: string): string {
    op + "-" + bookName + "-" + Replace(field, "_", "-")
  }

  function MultiFieldParams(op: string, field: string): Params {
    if op == "add" then Named([(field, field)])
    else if op == "update" || op == "get" || op == "delete" then
      Named([(SearchPrefix + "_" + field, field)] + (if op == "update" then [(UpdatePrefix + "_" + field, field)] else []))
    else Named([])
  }

  /** The four commands of one multi-valued field. */
  function FieldCommandPairs(bookName: string, field: string): seq<(string, Params)> {
    seq(|StandardOps|, k requires 0 <= k < |StandardOps| =>
      (MultiFieldCommandName(StandardOps[k], bookName, field), MultiFieldParams(StandardOps[k], field)))
  }

  function MultiFieldCommandPairs(bookName: string, fields: seq<string>): seq<(string, Params)> {
    if |fields| == 0 then []
    else MultiFieldCommandPairs(bookName, fields[..|fields| - 1]) + FieldCommandPairs(bookName, fields[|fields| - 1])
  }

  function MethodCommandPairs(book: BookInfo, names: seq<string>): (r: seq<(string, Params)>)
    ensures |r| == |names|
    ensures forall j :: 0 <= j < |names| ==> r[j] == (CommandName(book.name, names[j]), OperationParams(book, names[j]))
  {
    seq(|names|, j requires 0 <= j < |names| => (CommandName(book.name, names[j]), OperationParams(book, names[j])))
  }

  /** Every command of one book, in the order they are assigned. */
  function BookCommandPairs(book: BookInfo): seq<(string, Params)> {
    MethodCommandPairs(book, CataloguedNames(book.members)) + MultiFieldCommandPairs(book.name, book.schema.multiValueFields)
  }

  function AllCommandPairs(books: seq<BookInfo>): seq<(string, Params)> {
    if |books| == 0 then []
    else AllCommandPairs(books[..|books| - 1]) + BookCommandPairs(books[|books| - 1])
  }

  /** The dict `get_supported_operations` builds. */
  function SupportedOperations(books: seq<BookInfo>): Dict<Params> {
    PutAll([], AllCommandPairs(books))
  }

  lemma MethodCommandPairsStep(book: BookInfo, names: seq<string>, i: int)
    requires 0 <= i < |names|
    ensures MethodCommandPairs(book, names[..i + 1])
      == MethodCommandPairs(book, names[..i]) + [(CommandName(book.name, names[i]), OperationParams(book, names[i]))]
  {
    var a := MethodCommandPairs(book, names[..i + 1]);
    var b := MethodCommandPairs(book, names[..i]);
    assert |a| == |b| + 1;
    forall j | 0 <= j < i ensures a[j] == b[j] {
      assert names[..i + 1][j] == names[..i][j];
    }
  }

  method AddMethodCommands(commands: Dict<Params>, book: BookInfo, names: seq<string>) returns (r: Dict<Params>)
    ensures r == PutAll(commands, MethodCommandPairs(book, names))
  {
    r := commands;
    var i := 0;
    while i < |names|
      invariant 0 <= i <= |names|
      invariant r == PutAll(commands, MethodCommandPairs(book, names[..i]))
    {
      var params := OperationParams(book, names[i]);
      var cmd := CommandName(book.name, names[i]);
      MethodCommandPairsStep(book, names, i);
      PutAllAppend(commands, MethodCommandPairs(book, names[..i]), (cmd, params));
      r := Put(r, cmd, params);
      i := i + 1;
    }
    assert names[..i] == names;
  }

  method AddFieldCommands(commands: Dict<Params>, bookName: string, fields: seq<string>) returns (r: Dict<Params>)
    ensures r == PutAll(commands, MultiFieldCommandPairs(bookName, fields))
  {
    r := commands;
    var i := 0;
    while i < |fields|
      invariant 0 <= i <= |fields|
      invariant r == PutAll(commands, MultiFieldCommandPairs(bookName, fields[..i]))
    {
      var field := fields[i];
      var before := r;
      var k := 0;
      while k < |StandardOps|
        invariant 0 <= k <= |StandardOps|
        invariant r == PutAll(before, FieldCommandPairs(bookName, field)[..k])
      {
        var op := StandardOps[k];
        var params := MultiFieldParams(op, field);
        var cmd := MultiFieldCommandName(op, bookName, field);
        assert FieldCommandPairs(bookName, field)[..k + 1] == FieldCommandPairs(bookName, field)[..k] + [(cmd, params)];
        PutAllAppend(before, FieldCommandPairs(bookName, field)[..k], (cmd, params));
        r := Put(r, cmd, params);
        k := k + 1;
      }
      assert FieldCommandPairs(bookName, field)[..k] == FieldCommandPairs(bookName, field);
      assert fields[..i + 1][..i] == fields[..i];
      PutAllConcat(commands, MultiFieldCommandPairs(bookName, fields[..i]), FieldCommandPairs(bookName, field));
      i := i + 1;
    }
    assert fields[..i] == fields;
  }

  /** The commands of the books up to `i` are those up to `i - 1` extended
      by the method commands and then the field commands of book `i`. */
  lemma SupportedOperationsStep(books: seq<BookInfo>, i: int)
    requires 0 <= i < |books|
    ensures PutAll([], AllCommandPairs(books[..i + 1])) ==
      PutAll(PutAll(PutAll([], AllCommandPairs(books[..i])), MethodCommandPairs(books[i], CataloguedNames(books[i].members))),
             MultiFieldCommandPairs(books[i].name, books[i].schema.multiValueFields))
  {
    var book := books[i];
    var a := AllCommandPairs(books[..i]);
    var m := MethodCommandPairs(book, CataloguedNames(book.members));
    var f := MultiFieldCommandPairs(book.name, book.schema.multiValueFields);
    assert books[..i + 1][..i] == books[..i];
    assert AllCommandPairs(books[..i + 1]) == a + (m + f);
    PutAllConcat([], a, m + f);
    PutAllConcat(PutAll([], a), m, f);
  }

  /** `get_supported_operations`. */
  method GetSupportedOperations(books: seq<BookInfo>) returns (commands: Dict<Params>)
    ensures commands == SupportedOperations(books)
  {
    commands := [];
    var i := 0;
    while i < |books|
      invariant 0 <= i <= |books|
      invariant commands == PutAll([], AllCommandPairs(books[..i]))
    {
      var book := books[i];
      var names := PrepareMethods(book);
      commands := AddMethodCommands(commands, book, names);
      commands := AddFieldCommands(commands, book.name, book.schema.multiValueFields);
      SupportedOperationsStep(books, i);
      i := i + 1;
    }
    assert books[..i] == books;
  }

  // ----- properties of the catalogue -----

  lemma {:induction false} AllCommandPairsContain(books: seq<BookInfo>, i: int, p: (string, Params))
    requires 0 <= i < |books| && p in BookCommandPairs(books[i])
    ensures p in AllCommandPairs(books)
  {
    if i < |books| - 1 {
      AllCommandPairsContain(books[..|books| - 1], i, p);
    }
  }

  lemma PairListed(books: seq<BookInfo>, p: (string, Params))
    requires p in AllCommandPairs(books)
    ensures HasKey(SupportedOperations(books), p.0)
  {
    var i :| 0 <= i < |AllCommandPairs(books)| && AllCommandPairs(books)[i] == p;
    assert Keys(AllCommandPairs(books))[i] == p.0;
    HasKeyPutAll([], AllCommandPairs(books), p.0);
  }

  /** A command is looked up to the arguments assigned to it last: a later
      book, or a later method of the same book, that yields the same command
      name silently replaces the earlier one. */
  lemma SupportedOperationsGet(books: seq<BookInfo>, cmd: string)
    ensures Get(SupportedOperations(books), cmd) == LastValue(AllCommandPairs(books), cmd)
    ensures HasKey(SupportedOperations(books), cmd) <==> cmd in Keys(AllCommandPairs(books))
  {
    GetPutAll([], AllCommandPairs(books), cmd);
    HasKeyPutAll([], AllCommandPairs(books), cmd);
  }

  /** Every catalogued method of every book is offered as a command. */
  lemma MethodCommandListed(books: seq<BookInfo>, i: int, methodName: string)
    requires 0 <= i < |books|
    requires methodName in CataloguedNames(books[i].members)
    ensures HasKey(SupportedOperations(books), CommandName(books[i].name, methodName))
  {
    var names := CataloguedNames(books[i].members);
    var j :| 0 <= j < |names| && names[j] == methodName;
    var p := MethodCommandPairs(books[i], names)[j];
    assert p in BookCommandPairs(books[i]);
    AllCommandPairsContain(books, i, p);
    PairListed(books, p);
  }

  lemma {:induction false} MultiFieldCommandPairsContain(bookName: string, fields: seq<string>, f: int, k: int)
    requires 0 <= f < |fields| && 0 <= k < |StandardOps|
    ensures FieldCommandPairs(bookName, fields[f])[k] in MultiFieldCommandPairs(bookName, fields)
  {
    if f < |fields| - 1 {
      MultiFieldCommandPairsContain(bookName, fields[..|fields| - 1], f, k);
    } else {
      var tail := FieldCommandPairs(bookName, fields[f]);
      assert MultiFieldCommandPairs(bookName, fields)[|MultiFieldCommandPairs(bookName, fields[..f])| + k] == tail[k];
    }
  }

  /** Every multi-valued field of every book gets its `add`, `update`,
      `delete` and `get` command. */
  lemma MultiFieldCommandsListed(books: seq<BookInfo>, i: int, field: string, op: string)
    requires 0 <= i < |books|
    requires field in books[i].schema.multiValueFields
    requires op in StandardOps
    ensures HasKey(SupportedOperations(books), MultiFieldCommandName(op, books[i].name, field))
  {
    var fields := books[i].schema.multiValueFields;
    var f :| 0 <= f < |fields| && fields[f] == field;
    var k :| 0 <= k < |StandardOps| && StandardOps[k] == op;
    MultiFieldCommandPairsContain(books[i].name, fields, f, k);
    var p := FieldCommandPairs(books[i].name, field)[k];
    assert p in BookCommandPairs(books[i]);
    AllCommandPairsContain(books, i, p);
    PairListed(books, p);
  }

  /** The four commands of a field are distinct, and an `add` takes the field
      itself while the others search by it; only `update` takes a new value. */
  lemma FieldCommandsShape(bookName: string, field: string)
    ensures forall a, b :: 0 <= a < b < 4 ==>
      FieldCommandPairs(bookName, field)[a].0 != FieldCommandPairs(bookName, field)[b].0
    ensures FieldCommandPairs(bookName, field)[0].1 == Named([(field, field)])
    ensures FieldCommandPairs(bookName, field)[1].1 == Named([("search_by_" + field, field), ("update_" + field, field)])
    ensures FieldCommandPairs(bookName, field)[2].1 == Named([("search_by_" + field, field)])
    ensures FieldCommandPairs(bookName, field)[3].1 == Named([("search_by_" + field, field)])
  {
    var ps := FieldCommandPairs(bookName, field);
    assert ps[0].0[0] == 'a' && ps[1].0[0] == 'u' && ps[2].0[0] == 'd' && ps[3].0[0] == 'g';
    assert SearchPrefix + "_" + field == "search_by_" + field;
    assert UpdatePrefix + "_" + field == "update_" + field;
    assert ps[1].1 == MultiFieldParams("update", field);
    assert ps[2].1 == MultiFieldParams("delete", field);
    assert ps[3].1 == MultiFieldParams("get", field);
  }

  // ----- run_command -----

  /** The segments after the operation and the book (`split("-")[2:]`). */
  function AdditionalParams(cmd: string): seq<string> {
    var parts := Split(cmd, '-');
    if |parts| <= 2 then [] else parts[2..]
  }

  predicate HasCallable(book: BookInfo, name: string) {
    var m := MemberNamed(book.members, name);
    m.Some? && m.value.isCallable
  }

  /** `getattr(book, name)(...)`. */
  function CallMethod(book: BookInfo, name: string): Dispatch {
    if HasCallable(book, name) then Invoke(book.name, name) else Fails(book.name, name)
  }

  function NotImplemented(cmd: string): string {
    "Multi-value field commands not yet implemented for: " + cmd
  }

  function Unknown(cmd: string): string {
    "Unknown command: " + cmd
  }

  /** Whether a book takes the command on; the first book that does decides. */
  predicate Claims(book: BookInfo, funcName: string) {
    Contains(funcName, "_" + book.name) || HasCallable(book, funcName)
  }

  function DispatchAmong(books: seq<BookInfo>, funcName: string, additional: seq<string>, cmd: string): Dispatch {
    if |books| == 0 then Message(Unknown(cmd))
    else
      var b := books[0];
      if Contains(funcName, "_" + b.name) then
        if |additional| == 0 then CallMethod(b, Replace(funcName, b.name, "record"))
        else Message(NotImplemented(cmd))
      else if HasCallable(b, funcName) then Invoke(b.name, funcName)
      else DispatchAmong(books[1..], funcName, additional, cmd)
  }

  function FuncName(cmd: string): string {
    Replace(cmd, "-", "_")
  }

  /** What `run_command` does with a command. */
  function Dispatched(books: seq<BookInfo>, cmd: string): Dispatch {
    DispatchAmong(books, FuncName(cmd), AdditionalParams(cmd), cmd)
  }

  /** `run_command`, up to the call it makes. */
  method RunCommand(books: seq<BookInfo>, cmd: string) returns (d: Dispatch)
    ensures d == Dispatched(books, cmd)
  {
    var additional := AdditionalParams(cmd);
    var funcName := FuncName(cmd);
    var i := 0;
    while i < |books|
      invariant 0 <= i <= |books|
      invariant DispatchAmong(books, funcName, additional, cmd) == DispatchAmong(books[i..], funcName, additional, cmd)
    {
      var b := books[i];
      assert books[i..][1..] == books[i + 1..];
      if Contains(funcName, "_" + b.name) {
        if |additional| == 0 {
          return CallMethod(b, Replace(funcName, b.name, "record"));
        } else {
          return Message(NotImplemented(cmd));
        }
      } else if HasCallable(b, funcName) {
        return Invoke(b.name, funcName);
      }
      i := i + 1;
    }
    return Message(Unknown(cmd));
  }

  // ----- properties of the dispatcher -----

  lemma {:induction false} DispatchSkips(books: seq<BookInfo>, k: int, funcName: string, additional: seq<string>, cmd: string)
    requires 0 <= k <= |books|
    requires forall i :: 0 <= i < k ==> !Claims(books[i], funcName)
    ensures DispatchAmong(books, funcName, additional, cmd) == DispatchAmong(books[k..], funcName, additional, cmd)
  {
    if k > 0 {
      assert books[1..][k - 1..] == books[k..];
      DispatchSkips(books[1..], k - 1, funcName, additional, cmd);
    }
  }

  /** A command is unknown exactly when no book takes it on. */
  lemma {:induction false} UnknownIffUnclaimed(books: seq<BookInfo>, cmd: string)
    ensures Dispatched(books, cmd) == Message(Unknown(cmd)) <==>
      forall i :: 0 <= i < |books| ==> !Claims(books[i], FuncName(cmd))
  {
    var f := FuncName(cmd);
    var a := AdditionalParams(cmd);
    if forall i :: 0 <= i < |books| ==> !Claims(books[i], f) {
      DispatchSkips(books, |books|, f, a, cmd);
    } else {
      var k :| 0 <= k < |books| && Claims(books[k], f) && forall i :: 0 <= i < k ==> !Claims(books[i], f) by {
        FirstClaimant(books, f);
      }
      DispatchSkips(books, k, f, a, cmd);
      assert books[k..][0] == books[k];
      assert |NotImplemented(cmd)| != |Unknown(cmd)|;
    }
  }

  lemma FirstClaimant(books: seq<BookInfo>, f: string)
    requires exists i :: 0 <= i < |books| && Claims(books[i], f)
    ensures exists k :: 0 <= k < |books| && Claims(books[k], f) && forall i :: 0 <= i < k ==> !Claims(books[i], f)
  {
    var i :| 0 <= i < |books| && Claims(books[i], f);
    var k := 0;
    while !Claims(books[k], f)
      invariant 0 <= k <= i
      invariant forall j :: 0 <= j < k ==> !Claims(books[j], f)
      decreases i - k
    {
      k := k + 1;
    }
  }

  /** No occurrence of `p` starts inside `a` or at the character after it. */
  lemma NoOccurrenceBefore(a: string, c: char, rest: string, p: string)
    requires |p| > 0 && c !in p && !Contains(a, p)
    ensures forall i :: 0 <= i < |a + [c]| ==> !OccursAt(a + [c] + rest, p, i)
  {
    var s := a + [c] + rest;
    forall i | 0 <= i < |a + [c]| ensures !OccursAt(s, p, i) {
      if i + |p| <= |a| {
        assert !OccursAt(a, p, i);
        assert s[i..i + |p|] == a[i..i + |p|];
      } else if i + |p| <= |s| {
        assert s[i..i + |p|][|a| - i] == c;
      }
    }
  }

  /** Replacing the one occurrence of `x` that follows `a` and a separator. */
  lemma ReplaceInSlot(a: string, c: char, x: string, rest: string, y: string)
    requires |x| > 0 && c !in x && !Contains(a, x) && !Contains(rest, x)
    ensures Replace(a + [c] + x + rest, x, y) == a + [c] + y + rest
  {
    NoOccurrenceBefore(a, c, x + rest, x);
    assert a + [c] + x + rest == (a + [c]) + (x + rest);
    ReplaceSkipsPrefix(a + [c], x + rest, x, y);
    ReplaceAtStart(x, rest, y);
    ReplaceAbsent(rest, x, y);
  }

  /** `replace` of a one-character string maps that character to its replacement. */
  lemma ReplaceOwnChar(c: char, rep: string)
    ensures Replace([c], [c], rep) == rep
  {
    assert [c][..1] == [c];
    assert [c][1..] == [];
  }

  lemma ReplaceLeadingChar(c: char, x: string, c': char)
    ensures Replace([c] + x, [c], [c']) == [c'] + Replace(x, [c], [c'])
  {
    ReplaceCharConcat([c], x, c, [c']);
    ReplaceOwnChar(c, [c']);
  }

  lemma ReplaceAfterAbsent(a: string, x: string, c: char, c': char)
    requires c !in a
    ensures Replace(a + x, [c], [c']) == a + Replace(x, [c], [c'])
  {
    ReplaceCharConcat(a, x, c, [c']);
    ReplaceCharAbsent(a, c, [c']);
  }

  /** Replacing a separator character that occurs in neither `a` nor `b`. */
  lemma ReplaceSeparator(a: string, b: string, d: string, c: char, c': char)
    requires c !in a && c !in b
    ensures Replace(a + [c] + b + d, [c], [c']) == a + [c'] + b + Replace(d, [c], [c'])
  {
    var r := Replace(d, [c], [c']);
    assert a + [c] + b + d == a + ([c] + (b + d));
    ReplaceAfterAbsent(a, [c] + (b + d), c, c');
    ReplaceLeadingChar(c, b + d, c');
    ReplaceAfterAbsent(b, d, c, c');
    assert a + ([c'] + (b + r)) == a + [c'] + b + r;
  }

  /** Swapping one separator character for another in `a`, `c`, `b`, `d`. */
  lemma SwapSeparator(a: string, b: string, d: string, c: char, c': char)
    requires c !in a && c !in b && c !in d
    ensures Replace(a + [c] + b + d, [c], [c']) == a + [c'] + b + d
  {
    ReplaceSeparator(a, b, d, c, c');
    ReplaceCharAbsent(d, c, [c']);
  }

  /** The names in a round trip: the method `<verb>_record<suffix>`, its
      command `<verb>-<book><suffix>` and the function name
      `<verb>_<book><suffix>` the dispatcher derives from the command. */
  predicate RoundTripNames(b: string, verb: string, suffix: string) {
    |b| > 0 && '-' !in b && '_' !in b
    && '-' !in verb && '_' !in verb && !Contains(verb, "record") && !Contains(verb, b)
    && '-' !in suffix && '_' !in suffix && !Contains(suffix, "record") && !Contains(suffix, b)
  }

  lemma CommandOfMethod(b: string, verb: string, suffix: string)
    requires RoundTripNames(b, verb, suffix)
    ensures CommandName(b, verb + "_record" + suffix) == verb + ['-'] + b + suffix
  {
    assert verb + "_record" + suffix == verb + ['_'] + "record" + suffix;
    assert '_' !in "record";
    ReplaceInSlot(verb, '_', "record", suffix, b);
    SwapSeparator(verb, b, suffix, '_', '-');
  }

  lemma FunctionOfCommand(b: string, verb: string, suffix: string)
    requires RoundTripNames(b, verb, suffix)
    ensures FuncName(verb + ['-'] + b + suffix) == verb + ['_'] + b + suffix
    ensures AdditionalParams(verb + ['-'] + b + suffix) == []
  {
    SwapSeparator(verb, b, suffix, '-', '_');
    assert verb + ['-'] + b + suffix == verb + ['-'] + (b + suffix);
    SplitAtFirst(verb, '-', b + suffix);
    SplitAbsent(b + suffix, '-');
  }

  lemma MethodOfFunction(b: string, verb: string, suffix: string)
    requires RoundTripNames(b, verb, suffix)
    ensures Contains(verb + ['_'] + b + suffix, "_" + b)
    ensures Replace(verb + ['_'] + b + suffix, b, "record") == verb + "_record" + suffix
  {
    assert verb + ['_'] + b + suffix == verb + ("_" + b) + suffix;
    ContainsMiddle(verb, "_" + b, suffix);
    ReplaceInSlot(verb, '_', b, suffix, "record");
    assert verb + ['_'] + "record" + suffix == verb + "_record" + suffix;
  }

  /** The round trip between the catalogue and the dispatcher: the command a
      method `<verb>_record<suffix>` of a book is listed under runs that very
      method, provided the book name is a single word that occurs neither in
      the verb nor in the suffix, and no earlier book takes the command on. */
  lemma CommandRoundTrip(books: seq<BookInfo>, k: int, verb: string, suffix: string)
    requires 0 <= k < |books|
    requires RoundTripNames(books[k].name, verb, suffix)
    requires HasCallable(books[k], verb + "_record" + suffix)
    requires forall i :: 0 <= i < k ==> !Claims(books[i], FuncName(CommandName(books[k].name, verb + "_record" + suffix)))
    ensures Dispatched(books, CommandName(books[k].name, verb + "_record" + suffix)) == Invoke(books[k].name, verb + "_record" + suffix)
  {
    var b := books[k].name;
    CommandOfMethod(b, verb, suffix);
    FunctionOfCommand(b, verb, suffix);
    MethodOfFunction(b, verb, suffix);
    var cmd := verb + ['-'] + b + suffix;
    DispatchSkips(books, k, FuncName(cmd), [], cmd);
    assert books[k..][0] == books[k];
  }

  /** Every command listed for a multi-valued field reaches the
      not-yet-implemented message, never a book method. */
  lemma MultiFieldCommandNotImplemented(books: seq<BookInfo>, k: int, op: string, field: string)
    requires 0 <= k < |books|
    requires '-' !in op && '-' !in books[k].name
    requires forall i :: 0 <= i < k ==> !Claims(books[i], FuncName(MultiFieldCommandName(op, books[k].name, field)))
    ensures var cmd := MultiFieldCommandName(op, books[k].name, field);
      Dispatched(books, cmd) == Message(NotImplemented(cmd))
  {
    var b := books[k].name;
    var rest := Replace(field, "_", "-");
    var cmd := MultiFieldCommandName(op, b, field);
    assert cmd == op + ['-'] + b + (['-'] + rest);
    var f := FuncName(cmd);
    ReplaceSeparator(op, b, ['-'] + rest, '-', '_');
    assert f == op + ("_" + b) + Replace(['-'] + rest, "-", "_");
    ContainsMiddle(op, "_" + b, Replace(['-'] + rest, "-", "_"));
    assert cmd == op + ['-'] + (b + ['-'] + rest);
    SplitAtFirst(op, '-', b + ['-'] + rest);
    SplitAtFirst(b, '-', rest);
    assert |AdditionalParams(cmd)| > 0;
    DispatchSkips(books, k, f, AdditionalParams(cmd), cmd);
    assert books[k..][0] == books[k];
  }
}
