/** The contact record kind: its declared fields and the two validators that
    normalise a phone number and check an e-mail address. */
module ContactRecord {
  import opened Wrappers
  import opened PyStr
  import opened Dicts
  import opened Records

  const RecordFields: seq<string> := ["firstname", "lastname", "address", "email", "birthday"]
  const MultiValueFields: seq<string> := ["phone_number"]
  const RequiredFields: seq<string> := ["firstname", "lastname"]

  const ContactSchema: Schema := Schema(RecordFields, MultiValueFields, RequiredFields)

  /** The required fields are declared fields; the phone number, the one
      multi-valued field, is not a declared field. */
  lemma SchemaShape()
    ensures forall f :: f in RequiredFields ==> f in RecordFields
    ensures "phone_number" !in RecordFields
    ensures MultiValueFields == ["phone_number"]
  {
  }

  /** Because `phone_number` is not a declared field, passing it to the
      constructor is refused as an unsupported field. */
  lemma PhoneNumberArgumentRejected(kwargs: Kwargs)
    requires "phone_number" in Keys(kwargs)
    ensures ValidateKwargs(ContactSchema, kwargs).Fail?
    ensures StartsWith(ValidateKwargs(ContactSchema, kwargs).error, "Unsupported field(s): ")
  {
    var msg := "Unsupported field(s): ";
    var r := ValidateKwargs(ContactSchema, kwargs);
    assert "phone_number" !in ContactSchema.fields;
    assert r == Fail(msg + Join(UnsupportedFields(ContactSchema, kwargs), ", "));
    assert (msg + Join(UnsupportedFields(ContactSchema, kwargs), ", "))[..|msg|] == msg;
  }

  // ----- phone numbers -----

  predicate AllDigits(s: string) { forall i :: 0 <= i < |s| ==> IsDigit(s[i]) }

  /** `re.sub(r'\D', '', s)`: the digits of `s`, in order. */
  function DigitsOnly(s: string): (r: string)
    ensures AllDigits(r)
    ensures |r| <= |s|
  {
    if |s| == 0 then ""
    else (if IsDigit(s[0]) then [s[0]] else "") + DigitsOnly(s[1..])
  }

  /** The digits with the `38` country prefix ensured, or `None` when they
      start neither with `38` nor with `0`. */
  function NormalisedDigits(digits: string): Option<string> {
    if StartsWith(digits, "38") then Some(digits)
    else if StartsWith(digits, "0") then Some("38" + digits)
    else if StartsWith(digits, "380") then Some(digits)
    else None
  }

  /** `+38(XXX)YYY-ZZ-WW` from a twelve-digit number starting with `38`. */
  function FormatPhone(n: string): string
    requires |n| == 12
  {
    "+38(" + n[2..5] + ")" + n[5..8] + "-" + n[8..10] + "-" + n[10..12]
  }

  /** `validate_phone_number`. */
  function ValidatePhoneNumber(phone: string): Option<string> {
    match NormalisedDigits(DigitsOnly(Strip(phone)))
    case None => None
    case Some(n) => if |n| != 12 then None else Some(FormatPhone(n))
  }

  /** The shape every accepted number has: `+38(ddd)ddd-dd-dd`. */
  predicate IsFormattedPhone(s: string) {
    && |s| == 17
    && s[..4] == "+38(" && s[7] == ')' && s[11] == '-' && s[14] == '-'
    && (forall i :: 4 <= i < 7 ==> IsDigit(s[i]))
    && (forall i :: 8 <= i < 11 ==> IsDigit(s[i]))
    && (forall i :: 12 <= i < 14 ==> IsDigit(s[i]))
    && (forall i :: 15 <= i < 17 ==> IsDigit(s[i]))
  }

  /** The `380` branch of the normaliser can never be taken: such digits
      already start with `38`. */
  lemma PrefixBranch380Unreachable(digits: string)
    requires StartsWith(digits, "380")
    ensures StartsWith(digits, "38")
    ensures NormalisedDigits(digits) == Some(digits)
  {
    assert digits[..2] == digits[..3][..2];
  }

  /** One character is kept exactly when it is a digit. */
  lemma DigitsOnlyChar(c: char)
    ensures DigitsOnly([c]) == if IsDigit(c) then [c] else []
  {
    assert [c][1..] == [];
  }

  lemma {:induction false} DigitsOnlyConcat(a: string, b: string)
    ensures DigitsOnly(a + b) == DigitsOnly(a) + DigitsOnly(b)
  {
    if |a| > 0 {
      assert (a + b)[1..] == a[1..] + b;
      DigitsOnlyConcat(a[1..], b);
    } else {
      assert a + b == b;
    }
  }

  lemma {:induction false} DigitsOnlyOfDigits(s: string)
    requires AllDigits(s)
    ensures DigitsOnly(s) == s
  {
    if |s| > 0 {
      DigitsOnlyOfDigits(s[1..]);
      assert [s[0]] + s[1..] == s;
    }
  }

  lemma FormatPhoneShape(n: string)
    requires |n| == 12
    requires forall i :: 0 <= i < |n| ==> IsDigit(n[i])
    ensures IsFormattedPhone(FormatPhone(n))
  {
    var s := FormatPhone(n);
    forall i | 4 <= i < 7 ensures s[i] == n[i - 2] {}
    forall i | 8 <= i < 11 ensures s[i] == n[i - 3] {}
    forall i | 12 <= i < 14 ensures s[i] == n[i - 4] {}
    forall i | 15 <= i < 17 ensures s[i] == n[i - 5] {}
  }

  /** An accepted number keeps the subscriber's digits: reading back the
      digits of the result gives the twelve-digit number, `38` in front. */
  lemma FormatPhoneDigits(n: string)
    requires |n| == 12 && StartsWith(n, "38") && AllDigits(n)
    ensures DigitsOnly(FormatPhone(n)) == n
  {
    var a, b, c, e := n[2..5], n[5..8], n[8..10], n[10..12];
    assert AllDigits(a) && AllDigits(b) && AllDigits(c) && AllDigits(e) by {
      forall i | 0 <= i < 3 ensures IsDigit(a[i]) && IsDigit(b[i]) {
        assert a[i] == n[i + 2] && b[i] == n[i + 5];
      }
      forall i | 0 <= i < 2 ensures IsDigit(c[i]) && IsDigit(e[i]) {
        assert c[i] == n[i + 8] && e[i] == n[i + 10];
      }
    }
    FormattedDigits(a, b, c, e);
    assert n[..2] == "38";
    assert n == n[..2] + a + b + c + e;
  }

  lemma AppendDigits(p: string, q: string)
    requires AllDigits(q)
    ensures DigitsOnly(p + q) == DigitsOnly(p) + q
  {
    DigitsOnlyConcat(p, q);
    DigitsOnlyOfDigits(q);
  }

  lemma AppendNonDigit(p: string, c: char)
    requires !IsDigit(c)
    ensures DigitsOnly(p + [c]) == DigitsOnly(p)
  {
    DigitsOnlyConcat(p, [c]);
    assert DigitsOnly([c]) == [];
  }

  lemma CountryCodeDigits()
    ensures DigitsOnly("+38(") == "38"
  {
    var p := "+38(";
    assert p[1..] == "38(";
    assert p[1..][1..] == "8(";
    assert p[1..][1..][1..] == "(";
  }

  /** Reading the digits of the formatted pieces back, left to right. */
  lemma FormattedDigits(a: string, b: string, c: string, e: string)
    requires AllDigits(a) && AllDigits(b) && AllDigits(c) && AllDigits(e)
    ensures DigitsOnly("+38(" + a + ")" + b + "-" + c + "-" + e) == "38" + a + b + c + e
  {
    var p4 := "+38(" + a + ")" + b;
    var p5 := p4 + "-";
    var p6 := p5 + c;
    var p7 := p6 + "-";
    FormattedHeadDigits(a, b);
    assert DigitsOnly(p5) == "38" + a + b by { AppendNonDigit(p4, '-'); }
    assert DigitsOnly(p6) == "38" + a + b + c by { AppendDigits(p5, c); }
    assert DigitsOnly(p7) == "38" + a + b + c by { AppendNonDigit(p6, '-'); }
    AppendDigits(p7, e);
  }

  /** The digits of `+38(<a>)<b>`. */
  lemma FormattedHeadDigits(a: string, b: string)
    requires AllDigits(a) && AllDigits(b)
    ensures DigitsOnly("+38(" + a + ")" + b) == "38" + a + b
  {
    var p1 := "+38(";
    var p2 := p1 + a;
    var p3 := p2 + ")";
    assert DigitsOnly(p2) == "38" + a by { CountryCodeDigits(); AppendDigits(p1, a); }
    assert DigitsOnly(p3) == "38" + a by { AppendNonDigit(p2, ')'); }
    AppendDigits(p3, b);
  }


  /** A number is accepted exactly when its digits are twelve starting with
      `38`, or ten starting with `0`; the result is the formatted number. */
  lemma AcceptedNumbers(phone: string)
    ensures var d := DigitsOnly(Strip(phone));
      ValidatePhoneNumber(phone).Some? <==>
        (StartsWith(d, "38") && |d| == 12) || (!StartsWith(d, "38") && StartsWith(d, "0") && |d| == 10)
    ensures var d := DigitsOnly(Strip(phone));
      ValidatePhoneNumber(phone).Some? ==>
        ValidatePhoneNumber(phone).value == FormatPhone(if StartsWith(d, "38") then d else "38" + d)
  {
    var d := DigitsOnly(Strip(phone));
    if StartsWith(d, "380") {
      PrefixBranch380Unreachable(d);
    }
  }

  /** Every accepted number has the `+38(ddd)ddd-dd-dd` shape. */
  lemma AcceptedShape(phone: string)
    ensures ValidatePhoneNumber(phone).Some? ==> IsFormattedPhone(ValidatePhoneNumber(phone).value)
  {
    var d := DigitsOnly(Strip(phone));
    match NormalisedDigits(d)
    case None =>
    case Some(n) =>
      if |n| == 12 {
        FormatPhoneShape(n);
      }
  }

  /** Normalising is idempotent: validating an accepted number again gives
      the same string. */
  lemma ValidatePhoneNumberIdempotent(phone: string)
    requires ValidatePhoneNumber(phone).Some?
    ensures ValidatePhoneNumber(ValidatePhoneNumber(phone).value) == ValidatePhoneNumber(phone)
  {
    var d := DigitsOnly(Strip(phone));
    var n := NormalisedDigits(d).value;
    assert |n| == 12;
    assert n[..2] == "38";
    forall i | 0 <= i < |n| ensures IsDigit(n[i]) {
      if !StartsWith(d, "38") {
        assert n == "38" + d;
        if i >= 2 { assert n[i] == d[i - 2]; }
      }
    }
    FormatPhoneDigits(n);
    var s := FormatPhone(n);
    assert |s| == 17 && s[0] == '+' && s[16] == n[11];
    StripNoSpaceEnds(s);
    assert DigitsOnly(Strip(s)) == n;
    assert NormalisedDigits(n) == Some(n);
  }

  // ----- e-mail addresses -----

  /** `[a-zA-Z0-9._%+-]` */
  predicate IsLocalChar(c: char) {
    IsAsciiLetter(c) || IsDigit(c) || c == '.' || c == '_' || c == '%' || c == '+' || c == '-'
  }

  /** `[a-zA-Z0-9.-]` */
  predicate IsDomainChar(c: char) {
    IsAsciiLetter(c) || IsDigit(c) || c == '.' || c == '-'
  }

  predicate AllLocal(s: string) { forall i :: 0 <= i < |s| ==> IsLocalChar(s[i]) }
  predicate AllDomain(s: string) { forall i :: 0 <= i < |s| ==> IsDomainChar(s[i]) }
  predicate AllLetters(s: string) { forall i :: 0 <= i < |s| ==> IsAsciiLetter(s[i]) }

  /** The first index of `c` in `s`, or -1. */
  function IndexOf(s: string, c: char): (i: int)
    ensures -1 <= i < |s|
    ensures i >= 0 ==> s[i] == c && c !in s[..i]
    ensures i == -1 ==> c !in s
  {
    if |s| == 0 then -1
    else if s[0] == c then 0
    else
      var j := IndexOf(s[1..], c);
      if j == -1 then -1 else (assert s[..j + 1] == [s[0]] + s[1..][..j]; j + 1)
  }

  /** The last index of `c` in `s`, or -1. */
  function LastIndexOf(s: string, c: char): (i: int)
    ensures -1 <= i < |s|
    ensures i >= 0 ==> s[i] == c && forall k :: i < k < |s| ==> s[k] != c
    ensures i == -1 ==> forall k :: 0 <= k < |s| ==> s[k] != c
  {
    if |s| == 0 then -1
    else if s[|s| - 1] == c then |s| - 1
    else LastIndexOf(s[..|s| - 1], c)
  }

  /** A one-pass check of `^[a-zA-Z0-9._%+-]+@[a-zA-Z0-9.-]+\.[a-zA-Z]{2,}$`:
      split at the only `@`, then at the last `.` of the domain. */
  predicate IsEmailShape(e: string) {
    var at := IndexOf(e, '@');
    at >= 1 && AllLocal(e[..at]) &&
    var rest := e[at + 1..];
    AllDomain(rest) &&
    var dot := LastIndexOf(rest, '.');
    dot >= 1 && |rest| - dot - 1 >= 2 && AllLetters(rest[dot + 1..])
  }

  /** The pattern read as the regular expression does: some split into a
      non-empty local part, `@`, a non-empty domain, `.`, and a top-level
      domain of at least two letters. */
  ghost predicate MatchesEmailPattern(e: string) {
    exists at, dot :: 1 <= at && at + 2 <= dot && dot + 3 <= |e|
      && e[at] == '@' && e[dot] == '.'
      && AllLocal(e[..at]) && AllDomain(e[at + 1..dot]) && AllLetters(e[dot + 1..])
  }

  /** `validate_email`: the stripped address when it matches, else `None`. */
  function ValidateEmail(email: string): Option<string> {
    var e := Strip(email);
    if IsEmailShape(e) then Some(e) else None
  }

  /** The first occurrence is the one with none before it. */
  lemma IndexOfIsFirst(s: string, c: char, i: int)
    requires 0 <= i < |s| && s[i] == c && c !in s[..i]
    ensures IndexOf(s, c) == i
  {
  }

  /** The last occurrence is the one with none after it. */
  lemma LastIndexOfIsLast(s: string, c: char, i: int)
    requires 0 <= i < |s| && s[i] == c && forall k :: i < k < |s| ==> s[k] != c
    ensures LastIndexOf(s, c) == i
  {
  }

  lemma ShapeImpliesPattern(e: string)
    requires IsEmailShape(e)
    ensures MatchesEmailPattern(e)
  {
    var at := IndexOf(e, '@');
    var rest := e[at + 1..];
    var dot := LastIndexOf(rest, '.');
    var j := at + 1 + dot;
    assert e[at + 1..j] == rest[..dot];
    assert e[j + 1..] == rest[dot + 1..];
    assert AllDomain(rest[..dot]) by {
      forall i | 0 <= i < dot ensures IsDomainChar(rest[..dot][i]) {
        assert rest[..dot][i] == rest[i];
      }
    }
    assert e[j] == rest[dot];
  }

  lemma PatternImpliesShape(e: string, at: int, dot: int)
    requires 1 <= at && at + 2 <= dot && dot + 3 <= |e|
    requires e[at] == '@' && e[dot] == '.'
    requires AllLocal(e[..at]) && AllDomain(e[at + 1..dot]) && AllLetters(e[dot + 1..])
    ensures IsEmailShape(e)
  {
    var local := e[..at];
    assert '@' !in local by {
      forall i | 0 <= i < at ensures local[i] != '@' {
        assert IsLocalChar(local[i]);
      }
    }
    IndexOfIsFirst(e, '@', at);
    var rest := e[at + 1..];
    var d := dot - at - 1;
    var tld := rest[d + 1..];
    assert rest[..d] == e[at + 1..dot];
    assert tld == e[dot + 1..];
    assert AllDomain(rest) by {
      forall i | 0 <= i < |rest| ensures IsDomainChar(rest[i]) {
        if i < d { assert rest[i] == rest[..d][i]; }
        else if i > d { assert rest[i] == tld[i - d - 1]; }
      }
    }
    forall k | d < k < |rest| ensures rest[k] != '.' {
      assert rest[k] == tld[k - d - 1];
      assert IsAsciiLetter(tld[k - d - 1]);
    }
    LastIndexOfIsLast(rest, '.', d);
  }

  /** The one-pass check accepts exactly the strings the pattern matches. */
  lemma EmailShapeMatchesPattern(e: string)
    ensures IsEmailShape(e) <==> MatchesEmailPattern(e)
  {
    if IsEmailShape(e) {
      ShapeImpliesPattern(e);
    }
    if MatchesEmailPattern(e) {
      var at, dot :| 1 <= at && at + 2 <= dot && dot + 3 <= |e|
        && e[at] == '@' && e[dot] == '.'
        && AllLocal(e[..at]) && AllDomain(e[at + 1..dot]) && AllLetters(e[dot + 1..]);
      PatternImpliesShape(e, at, dot);
    }
  }

  /** An accepted address is the stripped input and matches the pattern;
      a refused one does not. */
  lemma ValidateEmailCorrect(email: string)
    ensures ValidateEmail(email).Some? <==> MatchesEmailPattern(Strip(email))
    ensures ValidateEmail(email).Some? ==> ValidateEmail(email).value == Strip(email)
  {
    EmailShapeMatchesPattern(Strip(email));
  }
}
