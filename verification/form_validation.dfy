/** The patient intake form checks: two regular-expression tests restated as string
    predicates, and the error-list builder that runs every check in a fixed order. */
module FormValidation {
  import opened JsStrings
  import opened Wrappers

  // ---------------------------------------------------------------------------
  // isValidEmail: /^[^\s@]+@[^\s@]+\.[^\s@]+$/

  /** A character of the class `[^\s@]`. */
  predicate IsEmailChar(c: char) {
    !IsWhitespace(c) && c != '@'
  }

  predicate AllEmailChars(s: string) {
    forall i :: 0 <= i < |s| ==> IsEmailChar(s[i])
  }

  /** `s` splits as `local "@" host "." tld`, each part one or more `[^\s@]`:
      the regular expression read piece by piece. */
  predicate EmailParts(s: string, local: string, host: string, tld: string) {
    && s == local + "@" + host + "." + tld
    && |local| > 0 && |host| > 0 && |tld| > 0
    && AllEmailChars(local) && AllEmailChars(host) && AllEmailChars(tld)
  }

  /** The language of the email regular expression. */
  ghost predicate EmailShape(s: string) {
    exists local, host, tld :: EmailParts(s, local, host, tld)
  }

  /** The position of the first `c` in `s`, or -1. */
  function IndexOf(s: string, c: char): (i: int)
    ensures -1 <= i < |s|
    ensures i == -1 <==> c !in s
    ensures i != -1 ==> s[i] == c && c !in s[..i]
  {
    if s == [] then -1
    else if s[0] == c then 0
    else
      var j := IndexOf(s[1..], c);
      assert s == [s[0]] + s[1..];
      if j == -1 then -1
      else
        assert s[..j + 1] == [s[0]] + s[1..][..j];
        j + 1
  }

  /** One scan over `s`: the text before the first `@` is non-empty and free of
      white space, and the text after it is free of white space and `@` and holds a
      `.` neither first nor last. */
  predicate EmailScan(s: string) {
    var at := IndexOf(s, '@');
    && at > 0
    && AllEmailChars(s[..at])
    && var domain := s[at + 1..];
    && AllEmailChars(domain)
    && exists j | 0 < j < |domain| - 1 :: domain[j] == '.'
  }

  /** Every string the scan accepts splits as the regular expression demands. */
  lemma EmailScanSound(s: string)
    requires EmailScan(s)
    ensures EmailShape(s)
  {
    var at := IndexOf(s, '@');
    var domain := s[at + 1..];
    var j :| 0 < j < |domain| - 1 && domain[j] == '.';
    SplitAtDot(s, at, j);
  }

  /** Cutting `s` at an `@` and at a later `.` gives the three parts of the regular
      expression, when the text around them qualifies. */
  lemma SplitAtDot(s: string, at: int, j: int)
    requires 0 < at < |s| && s[at] == '@'
    requires AllEmailChars(s[..at]) && AllEmailChars(s[at + 1..])
    requires 0 < j < |s[at + 1..]| - 1 && s[at + 1..][j] == '.'
    ensures EmailParts(s, s[..at], s[at + 1..][..j], s[at + 1..][j + 1..])
  {
    var domain := s[at + 1..];
    var local, host, tld := s[..at], domain[..j], domain[j + 1..];
    assert domain == host + "." + tld;
    assert s == local + "@" + domain;
    assert AllEmailChars(host) by {
      forall i | 0 <= i < |host| ensures IsEmailChar(host[i]) {
        assert host[i] == domain[i];
      }
    }
    assert AllEmailChars(tld) by {
      forall i | 0 <= i < |tld| ensures IsEmailChar(tld[i]) {
        assert tld[i] == domain[i + j + 1];
      }
    }
  }

  /** Every split the regular expression admits is accepted by the scan. */
  lemma EmailScanComplete(s: string, local: string, host: string, tld: string)
    requires EmailParts(s, local, host, tld)
    ensures EmailScan(s)
  {
    var domain := host + "." + tld;
    assert s == local + "@" + domain;
    assert '@' !in local;
    assert s[..|local|] == local;
    assert s[|local|] == '@';
    IndexOfFirst(s, '@', |local|);
    assert s[|local| + 1..] == domain;
    assert domain[|host|] == '.';
    assert AllEmailChars(domain) by {
      forall i | 0 <= i < |domain| ensures IsEmailChar(domain[i]) {
        if i < |host| {
          assert domain[i] == host[i];
        } else if i > |host| {
          assert domain[i] == tld[i - |host| - 1];
        }
      }
    }
  }

  /** A character found at `i` with no earlier occurrence is what `IndexOf` reports. */
  lemma IndexOfFirst(s: string, c: char, i: int)
    requires 0 <= i < |s| && s[i] == c && c !in s[..i]
    ensures IndexOf(s, c) == i
  {
  }

  /** `isValidEmail(s)`: decided by the scan, and true exactly for the strings of
      the regular expression's language. */
  function IsValidEmail(s: string): (ok: bool)
    ensures ok <==> EmailShape(s)
  {
    if EmailScan(s) then
      EmailScanSound(s);
      true
    else
      assert !EmailShape(s) by {
        if EmailShape(s) {
          var local, host, tld :| EmailParts(s, local, host, tld);
          EmailScanComplete(s, local, host, tld);
        }
      }
      false
  }

  // ---------------------------------------------------------------------------
  // isValidPhone: /^[\+]?[\d\s\-\(\)]{10,}$/

  /** A character of the class `[\d\s\-\(\)]`; `\d` is the ASCII digits only. */
  predicate IsPhoneChar(c: char) {
    ('0' <= c <= '9') || IsWhitespace(c) || c == '-' || c == '(' || c == ')'
  }

  predicate AllPhoneChars(s: string) {
    forall i :: 0 <= i < |s| ==> IsPhoneChar(s[i])
  }

  /** `s` splits as an optional `+` followed by ten or more phone characters. */
  predicate PhoneParts(s: string, sign: string, body: string) {
    && (sign == "" || sign == "+")
    && s == sign + body
    && |body| >= 10
    && AllPhoneChars(body)
  }

  /** The language of the phone regular expression. */
  ghost predicate PhoneShape(s: string) {
    exists sign, body :: PhoneParts(s, sign, body)
  }

  /** The direct test: after one optional leading `+`, at least ten characters, all
      digits, white space, `-`, `(` or `)`. Digits are not counted. */
  predicate PhoneScan(s: string) {
    var body := if |s| > 0 && s[0] == '+' then s[1..] else s;
    |body| >= 10 && AllPhoneChars(body)
  }

  /** `isValidPhone(s)`: decided by the direct test, and true exactly for the strings
      of the regular expression's language. `+` is no phone character, so the
      optional sign is never ambiguous. */
  function IsValidPhone(s: string): (ok: bool)
    ensures ok <==> PhoneShape(s)
  {
    if PhoneScan(s) then
      assert PhoneShape(s) by {
        if |s| > 0 && s[0] == '+' {
          assert s == "+" + s[1..];
          assert PhoneParts(s, "+", s[1..]);
        } else {
          assert s == "" + s;
          assert PhoneParts(s, "", s);
        }
      }
      true
    else
      false
  }

  /** The format test counts characters, not digits. */
  lemma PhoneAcceptsDashes()
    ensures IsValidPhone("----------")
    ensures IsValidPhone("+(12) 345-67 89")
    ensures !IsValidPhone("+123456789")
    ensures !IsValidPhone("12345 6789x")
  {
    assert PhoneScan("----------");
    var formatted := "+(12) 345-67 89";
    var body := formatted[1..];
    assert body == "(12) 345-67 89";
    assert AllPhoneChars(body) by {
      forall k | 0 <= k < |body| ensures IsPhoneChar(body[k]) {
        assert body[k] in "(12) 345-67 89";
      }
    }
    assert !IsPhoneChar('x');
    assert "12345 6789x"[10] == 'x';
    assert !PhoneScan("12345 6789x");
  }

  // ---------------------------------------------------------------------------
  // validatePatientForm

  /** The form's age value, as far as JavaScript's `!age`, `age < 1` and `age > 150`
      can tell values apart. */
  datatype AgeValue =
    | Missing                  // undefined, null, "" or NaN: falsy
    | Numeric(n: real)         // a finite number or numeric string: compares as n
    | Infinite(negative: bool) // Infinity or -Infinity, or a string such as "1e999" that converts to one
    | NonNumeric               // a non-empty string with no numeric value: truthy, every comparison false

  /** JavaScript truthiness of the age (`!age` is its negation). The number 0 is
      falsy; the string "0" is truthy, but `"0" < 1` rejects it all the same. */
  predicate Truthy(age: AgeValue) {
    match age
    case Missing => false
    case Numeric(n) => n != 0.0
    case Infinite(_) => true
    case NonNumeric => true
  }

  /** `age < bound` for a truthy age: -Infinity is below every bound, a comparison
      with NaN is false. It is false for `Missing`, although `null < 1` and `"" < 1`
      hold in JavaScript: the source never compares a falsy age, since `!age ||`
      decides first. */
  predicate Below(age: AgeValue, bound: real) {
    match age
    case Numeric(n) => n < bound
    case Infinite(negative) => negative
    case _ => false
  }

  /** `age > bound` for a truthy age: Infinity is above every bound. Like `Below`, it
      is false for `Missing`, which `!age ||` has already rejected. */
  predicate Above(age: AgeValue, bound: real) {
    match age
    case Numeric(n) => n > bound
    case Infinite(negative) => !negative
    case _ => false
  }

  /** The form fields the checks read. An absent optional email is the empty string. */
  datatype PatientForm = PatientForm(
    fullName: string,
    age: AgeValue,
    gender: string,
    contactNumber: string,
    prakritiType: string,
    email: string)

  /** The seven errors the validator can report, declared in the order it reports them. */
  datatype FormError =
    | FullNameRequired | AgeRequired | GenderRequired | ContactRequired
    | PrakritiRequired | EmailFormat | PhoneFormat
  {
    /** The position of the check that reports this error. */
    function Rank(): nat {
      match this
      case FullNameRequired => 0
      case AgeRequired => 1
      case GenderRequired => 2
      case ContactRequired => 3
      case PrakritiRequired => 4
      case EmailFormat => 5
      case PhoneFormat => 6
    }
  }

  /** The text pushed onto the error list; it reads back as the error. */
  function ErrorMessage(e: FormError): (m: string)
    ensures FromMessage(m) == Some(e)
  {
    match e
    case FullNameRequired => "Full Name is required"
    case AgeRequired => "Valid age is required"
    case GenderRequired => "Gender is required"
    case ContactRequired => "Contact Number is required"
    case PrakritiRequired => "Prakriti Type is required"
    case EmailFormat => "Valid email format is required"
    case PhoneFormat => "Valid phone number format is required"
  }

  /** Reads an error text back. */
  function FromMessage(m: string): Option<FormError> {
    if m == "Full Name is required" then Some(FullNameRequired)
    else if m == "Valid age is required" then Some(AgeRequired)
    else if m == "Gender is required" then Some(GenderRequired)
    else if m == "Contact Number is required" then Some(ContactRequired)
    else if m == "Prakriti Type is required" then Some(PrakritiRequired)
    else if m == "Valid email format is required" then Some(EmailFormat)
    else if m == "Valid phone number format is required" then Some(PhoneFormat)
    else None
  }

  /** The age check's meaning: a missing age, a number outside 1..150, or an
      infinity. A non-numeric text is not rejected, since every comparison with NaN
      is false. */
  predicate AgeRejected(age: AgeValue) {
    match age
    case Missing => true
    case Numeric(n) => !(1.0 <= n <= 150.0)
    case Infinite(_) => true
    case NonNumeric => false
  }

  /** `!age || age < 1 || age > 150`, evaluated with JavaScript's truthiness and
      comparisons: it holds exactly when the age is rejected. */
  function AgeCheckFails(age: AgeValue): (fails: bool)
    ensures fails <==> AgeRejected(age)
  {
    !Truthy(age) || Below(age, 1.0) || Above(age, 150.0)
  }

  /** Whether the check reporting `e` fails for `f`, one check at a time, with the
      trimmed-emptiness tests read as "only white space" and the formats read as the
      regular expressions' languages. */
  ghost predicate CheckFails(f: PatientForm, e: FormError) {
    match e
    case FullNameRequired => AllWhitespace(f.fullName)
    case AgeRequired => AgeRejected(f.age)
    case GenderRequired => f.gender == ""
    case ContactRequired => AllWhitespace(f.contactNumber)
    case PrakritiRequired => f.prakritiType == ""
    case EmailFormat => f.email != "" && !EmailShape(f.email)
    case PhoneFormat => f.contactNumber != "" && !PhoneShape(f.contactNumber)
  }

  /** The seven checks, in the order the validator runs them. */
  const AllErrors: seq<FormError> :=
    [FullNameRequired, AgeRequired, GenderRequired, ContactRequired,
     PrakritiRequired, EmailFormat, PhoneFormat]

  /** Each error comes from a later check than the one before it. */
  predicate InReportOrder(errors: seq<FormError>) {
    forall i, j :: 0 <= i < j < |errors| ==> errors[i].Rank() < errors[j].Rank()
  }

  /** The checks are listed by rank. */
  lemma AllErrorsInReportOrder()
    ensures InReportOrder(AllErrors)
    ensures forall k :: 0 <= k < |AllErrors| ==> AllErrors[k].Rank() == k
  {
  }

  /** Runs the checks in turn, pushing the error of each one whose `fails` entry is set;
      no check short-circuits another. */
  function Collect(checks: seq<FormError>, fails: seq<bool>): (errors: seq<FormError>)
    requires |fails| == |checks|
    ensures |errors| <= |checks|
    ensures forall x :: x in errors ==> x in checks
  {
    if checks == [] then []
    else (if fails[0] then [checks[0]] else []) + Collect(checks[1..], fails[1..])
  }

  /** Dropping the first check keeps the rest in report order. */
  lemma TailInReportOrder(checks: seq<FormError>)
    requires checks != [] && InReportOrder(checks)
    ensures InReportOrder(checks[1..])
    ensures forall x :: x in checks[1..] ==> checks[0].Rank() < x.Rank()
  {
  }

  /** A check's error is reported exactly when that check fails. */
  lemma {:induction false} CollectReports(checks: seq<FormError>, fails: seq<bool>, k: int)
    requires |fails| == |checks| && 0 <= k < |checks|
    requires InReportOrder(checks)
    ensures checks[k] in Collect(checks, fails) <==> fails[k]
  {
    TailInReportOrder(checks);
    if k > 0 {
      CollectReports(checks[1..], fails[1..], k - 1);
      assert checks[1..][k - 1] == checks[k];
    }
  }

  /** The reported errors keep the order of their checks. */
  lemma {:induction false} CollectInReportOrder(checks: seq<FormError>, fails: seq<bool>)
    requires |fails| == |checks|
    requires InReportOrder(checks)
    ensures InReportOrder(Collect(checks, fails))
  {
    if checks != [] {
      TailInReportOrder(checks);
      CollectInReportOrder(checks[1..], fails[1..]);
      var rest := Collect(checks[1..], fails[1..]);
      if fails[0] {
        var r := [checks[0]] + rest;
        forall i, j | 0 <= i < j < |r| ensures r[i].Rank() < r[j].Rank() {
          assert r[j] == rest[j - 1];
          if i > 0 {
            assert r[i] == rest[i - 1];
          } else {
            assert rest[j - 1] in rest;
          }
        }
      } else {
        assert Collect(checks, fails) == rest;
      }
    }
  }

  /** The error list for the outcomes of the seven checks, taken in order. */
  function Report(name: bool, age: bool, gender: bool, contact: bool, prakriti: bool,
                  email: bool, phone: bool): (errors: seq<FormError>)
    ensures FullNameRequired in errors <==> name
    ensures AgeRequired in errors <==> age
    ensures GenderRequired in errors <==> gender
    ensures ContactRequired in errors <==> contact
    ensures PrakritiRequired in errors <==> prakriti
    ensures EmailFormat in errors <==> email
    ensures PhoneFormat in errors <==> phone
    ensures InReportOrder(errors)
    ensures |errors| <= |AllErrors|
  {
    var fails := [name, age, gender, contact, prakriti, email, phone];
    AllErrorsInReportOrder();
    CollectReports(AllErrors, fails, 0);
    CollectReports(AllErrors, fails, 1);
    CollectReports(AllErrors, fails, 2);
    CollectReports(AllErrors, fails, 3);
    CollectReports(AllErrors, fails, 4);
    CollectReports(AllErrors, fails, 5);
    CollectReports(AllErrors, fails, 6);
    CollectInReportOrder(AllErrors, fails);
    Collect(AllErrors, fails)
  }

  /** `validatePatientForm(f)`: one error per failing check, no check skipped, in
      the fixed order name, age, gender, contact, prakriti, email, phone. */
  function ValidatePatientForm(f: PatientForm): (errors: seq<FormError>)
    ensures FullNameRequired in errors <==> AllWhitespace(f.fullName)
    ensures AgeRequired in errors <==> AgeRejected(f.age)
    ensures GenderRequired in errors <==> f.gender == ""
    ensures ContactRequired in errors <==> AllWhitespace(f.contactNumber)
    ensures PrakritiRequired in errors <==> f.prakritiType == ""
    ensures EmailFormat in errors <==> f.email != "" && !IsValidEmail(f.email)
    ensures PhoneFormat in errors <==> f.contactNumber != "" && !IsValidPhone(f.contactNumber)
    ensures InReportOrder(errors)
    ensures |errors| <= 7
  {
    Report(
      Trim(f.fullName) == "",
      AgeCheckFails(f.age),
      f.gender == "",
      Trim(f.contactNumber) == "",
      f.prakritiType == "",
      f.email != "" && !IsValidEmail(f.email),
      f.contactNumber != "" && !IsValidPhone(f.contactNumber))
  }

  /** The validator reports an error exactly when its check fails. */
  lemma ValidateReportsFailingChecks(f: PatientForm)
    ensures forall e :: e in ValidatePatientForm(f) <==> CheckFails(f, e)
  {
    forall e ensures e in ValidatePatientForm(f) <==> CheckFails(f, e) {
      match e
      case FullNameRequired =>
      case AgeRequired =>
      case GenderRequired =>
      case ContactRequired =>
      case PrakritiRequired =>
      case EmailFormat =>
      case PhoneFormat =>
    }
  }

  /** The error texts, in reporting order: each reads back as the error at its
      position, and an error's text is present exactly when the error is. */
  function Messages(errors: seq<FormError>): (texts: seq<string>)
    ensures |texts| == |errors|
    ensures forall i :: 0 <= i < |errors| ==> FromMessage(texts[i]) == Some(errors[i])
    ensures forall e :: ErrorMessage(e) in texts <==> e in errors
  {
    if errors == [] then []
    else
      var rest := Messages(errors[1..]);
      var texts := [ErrorMessage(errors[0])] + rest;
      assert forall i :: 0 < i < |texts| ==> texts[i] == rest[i - 1];
      assert forall i :: 0 <= i < |texts| ==> FromMessage(texts[i]) == Some(errors[i]);
      assert forall e :: ErrorMessage(e) in texts ==> e in errors by {
        forall e | ErrorMessage(e) in texts ensures e in errors {
          var i :| 0 <= i < |texts| && texts[i] == ErrorMessage(e);
          assert Some(e) == Some(errors[i]);
        }
      }
      texts
  }

  /** The string array `validatePatientForm(f)` returns: the text of an error is in it
      exactly when that error's check fails, every text is one of the seven, and the
      texts come in check order. */
  function ErrorTexts(f: PatientForm): (texts: seq<string>)
    ensures forall e :: ErrorMessage(e) in texts <==> CheckFails(f, e)
    ensures forall i :: 0 <= i < |texts| ==> FromMessage(texts[i]).Some?
    ensures forall i, j :: 0 <= i < j < |texts| ==>
      FromMessage(texts[i]).value.Rank() < FromMessage(texts[j]).value.Rank()
    ensures |texts| <= 7
  {
    ValidateReportsFailingChecks(f);
    Messages(ValidatePatientForm(f))
  }

  /** No error is reported twice. */
  lemma ErrorsDistinct(f: PatientForm)
    ensures var errors := ValidatePatientForm(f);
      forall i, j :: 0 <= i < j < |errors| ==> errors[i] != errors[j]
  {
  }

  /** The all-empty form reports exactly the five required-field errors. */
  lemma EmptyFormErrors(age: AgeValue)
    requires age == Missing || age == Numeric(0.0)
    ensures ValidatePatientForm(PatientForm("", age, "", "", "", ""))
      == [FullNameRequired, AgeRequired, GenderRequired, ContactRequired, PrakritiRequired]
  {
    var fails := [true, true, true, true, true, false, false];
    assert AllErrors[5..] == [EmailFormat, PhoneFormat];
    assert Collect(AllErrors[5..], fails[5..]) == [];
    assert Collect(AllErrors[4..], fails[4..]) == [PrakritiRequired];
    assert Collect(AllErrors[3..], fails[3..]) == [ContactRequired, PrakritiRequired];
    assert Collect(AllErrors[2..], fails[2..]) == [GenderRequired, ContactRequired, PrakritiRequired];
    assert Collect(AllErrors[1..], fails[1..])
      == [AgeRequired, GenderRequired, ContactRequired, PrakritiRequired];
    assert Collect(AllErrors, fails)
      == [FullNameRequired, AgeRequired, GenderRequired, ContactRequired, PrakritiRequired];
  }

  /** A malformed email adds exactly one email error to whatever else is reported. */
  lemma BadEmailReportedOnce(f: PatientForm)
    requires f.email == "not-an-email"
    ensures var errors := ValidatePatientForm(f);
      && EmailFormat in errors
      && forall i, j :: 0 <= i < j < |errors| ==> !(errors[i] == EmailFormat && errors[j] == EmailFormat)
  {
    assert '@' !in f.email;
    assert IndexOf(f.email, '@') == -1;
  }

  /** A contact number of fewer than ten white-space characters is reported both as
      missing and as malformed. */
  lemma ShortBlankContact(f: PatientForm)
    requires f.contactNumber != "" && |f.contactNumber| < 10 && AllWhitespace(f.contactNumber)
    ensures ContactRequired in ValidatePatientForm(f)
    ensures PhoneFormat in ValidatePatientForm(f)
  {
  }

  /** Ten or more white-space characters pass the phone format, so such a contact number
      is reported only as missing. */
  lemma LongBlankContact(f: PatientForm)
    requires |f.contactNumber| >= 10 && AllWhitespace(f.contactNumber)
    ensures ContactRequired in ValidatePatientForm(f)
    ensures PhoneFormat !in ValidatePatientForm(f)
  {
    assert f.contactNumber[0] != '+';
    assert AllPhoneChars(f.contactNumber);
    assert PhoneScan(f.contactNumber);
  }

  /** A truthy age with no numeric value passes the age check. */
  lemma NonNumericAgeAccepted(f: PatientForm)
    requires f.age == NonNumeric
    ensures AgeRequired !in ValidatePatientForm(f)
  {
    assert !AgeRejected(f.age);
  }
}
