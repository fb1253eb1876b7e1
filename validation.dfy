/** The validation chain at the head of `saveEdit`: six checks in a fixed
    order, the first that fails is reported and ends the save. */
module Validation {

  import opened Options
  import opened Chars
  import opened NumberText
  import opened NamePattern
  import opened EmailPattern
  import opened Users

  /** One identifier per check, standing for the alert it raises. */
  datatype Rule =
    | UserSelected  // "Invalid user data for editing."
    | NameGiven     // "Please enter your name."
    | NameFormat    // "Name can only contain alphabets and single spaces between words."
    | AgeGiven      // "Please enter your age."
    | AgeFormat     // "Age should be a number with two digits between 10 and 99."
    | EmailFormat   // "Please enter a valid email address."

  datatype Verdict = Ok | Err(rule: Rule)

  /** The order in which `saveEdit` runs its checks. */
  const RuleOrder: seq<Rule> := [UserSelected, NameGiven, NameFormat, AgeGiven, AgeFormat, EmailFormat]

  /** `/^\d{2}$/.test(age)` and `parseInt(age, 10)` within 10..99; a `NaN`
      from `parseInt` would fail neither comparison. */
  predicate AgeFormatPasses(age: int) {
    var text := ToDecimalString(age);
    && IsTwoDigitString(text)
    && match ParseInt(text)
       case None => true
       case Some(n) => !(n < 10 || n > 99)
  }

  /** The checks of `saveEdit` on the edited user and the edit buffer, each
      returning on failure, as the code runs them. */
  function Validate(editing: Option<User>, name: string, age: int, email: string): Verdict {
    if editing.None? then Err(UserSelected)
    else if Trim(name) == [] then Err(NameGiven)
    else if !NameMatches(name) then Err(NameFormat)
    else if age == 0 then Err(AgeGiven)
    else if !AgeFormatPasses(age) then Err(AgeFormat)
    else if email == [] || !ValidEmail(email) then Err(EmailFormat)
    else Ok
  }

  /** The edit target and the edit buffer, as `saveEdit` reads them. */
  datatype Form = Form(editing: Option<User>, name: string, age: int, email: string)

  /** What each rule asks of the form, stated without the regular
      expressions: a user is being edited; the name is not blank; it is words
      of ASCII letters joined by single whitespace characters; the age is not
      zero; it lies in 10..99; the email has the local@host.tld shape. */
  ghost predicate Satisfies(rule: Rule, f: Form) {
    match rule
    case UserSelected => f.editing.Some?
    case NameGiven => exists i | 0 <= i < |f.name| :: !IsWhitespace(f.name[i])
    case NameFormat => WellFormedName(f.name)
    case AgeGiven => f.age != 0
    case AgeFormat => 10 <= f.age <= 99
    case EmailFormat => EmailShape(f.email)
  }

  /** The reference verdict: the first rule of `rules` the form violates. */
  ghost function FirstViolated(rules: seq<Rule>, f: Form): Verdict {
    if rules == [] then Ok
    else if !Satisfies(rules[0], f) then Err(rules[0])
    else FirstViolated(rules[1..], f)
  }

  /** The age check passes exactly for ages 10..99. */
  lemma AgeFormatIff(age: int)
    ensures AgeFormatPasses(age) <==> 10 <= age <= 99
  {
    TwoDigitsIff(age);
    ParseIntOfDecimal(age);
  }

  /** The email check passes exactly for addresses of the pattern's shape,
      and never for the empty string. */
  lemma EmailCheckIff(email: string)
    ensures (email != [] && ValidEmail(email)) <==> EmailShape(email)
  {
    ValidEmailIff(email);
  }

  /** The trim check passes exactly when the name holds a character that is
      not whitespace. */
  lemma NameGivenIff(name: string)
    ensures Trim(name) != [] <==> exists i | 0 <= i < |name| :: !IsWhitespace(name[i])
  {
  }

  /** Each check of the chain tests what its rule asks, so the chain computes
      the reference verdict over `RuleOrder`. */
  lemma ValidateIsFirstViolated(editing: Option<User>, name: string, age: int, email: string)
    ensures Validate(editing, name, age, email) == FirstViolated(RuleOrder, Form(editing, name, age, email))
  {
    var f := Form(editing, name, age, email);
    RuleOrderUnrolled(f);
    NameGivenIff(name);
    assert Satisfies(NameGiven, f) <==> Trim(name) != [];
    NameMatchesIff(name);
    AgeFormatIff(age);
    EmailCheckIff(email);
  }

  /** The reference verdict over `RuleOrder`, written out rule by rule. */
  lemma RuleOrderUnrolled(f: Form)
    ensures FirstViolated(RuleOrder, f) ==
              if f.editing.None? then Err(UserSelected)
              else if !Satisfies(NameGiven, f) then Err(NameGiven)
              else if !WellFormedName(f.name) then Err(NameFormat)
              else if f.age == 0 then Err(AgeGiven)
              else if !(10 <= f.age <= 99) then Err(AgeFormat)
              else if !EmailShape(f.email) then Err(EmailFormat)
              else Ok
  {
    var r := RuleOrder;
    assert FirstViolated(r[5..], f) == if EmailShape(f.email) then Ok else Err(EmailFormat);
    assert FirstViolated(r[4..], f) == if 10 <= f.age <= 99 then FirstViolated(r[5..], f) else Err(AgeFormat);
    assert FirstViolated(r[3..], f) == if f.age != 0 then FirstViolated(r[4..], f) else Err(AgeGiven);
    assert FirstViolated(r[2..], f) == if WellFormedName(f.name) then FirstViolated(r[3..], f) else Err(NameFormat);
    assert FirstViolated(r[1..], f) == if Satisfies(NameGiven, f) then FirstViolated(r[2..], f) else Err(NameGiven);
  }

  /** No rule appears twice in `rules`. */
  predicate Distinct(rules: seq<Rule>) {
    forall i, j | 0 <= i < j < |rules| :: rules[i] != rules[j]
  }

  lemma RuleOrderDistinct()
    ensures Distinct(RuleOrder)
  {
  }

  /** The reference verdict accepts exactly when every rule holds, and it
      names rule `k` exactly when rule `k` fails and all rules before it
      hold. */
  lemma {:induction false} FirstViolatedIff(rules: seq<Rule>, f: Form)
    requires Distinct(rules)
    ensures FirstViolated(rules, f) == Ok <==> forall k | 0 <= k < |rules| :: Satisfies(rules[k], f)
    ensures forall k | 0 <= k < |rules| ::
              FirstViolated(rules, f) == Err(rules[k]) <==>
              (!Satisfies(rules[k], f) && forall j | 0 <= j < k :: Satisfies(rules[j], f))
  {
    if rules != [] {
      var tail := rules[1..];
      FirstViolatedIff(tail, f);
      forall k | 0 <= k < |rules|
        ensures FirstViolated(rules, f) == Err(rules[k]) <==>
                (!Satisfies(rules[k], f) && forall j | 0 <= j < k :: Satisfies(rules[j], f))
      {
        if k > 0 {
          assert rules[k] == tail[k - 1];
          assert rules[k] != rules[0];
          if Satisfies(rules[0], f) {
            assert (forall j | 0 <= j < k :: Satisfies(rules[j], f)) <==>
                   (forall j | 0 <= j < k - 1 :: Satisfies(tail[j], f)) by {
              forall j | 0 <= j < k - 1 ensures tail[j] == rules[j + 1] { }
            }
          }
        }
      }
      assert (forall k | 0 <= k < |rules| :: Satisfies(rules[k], f)) <==>
             (Satisfies(rules[0], f) && forall k | 0 <= k < |tail| :: Satisfies(tail[k], f)) by {
        forall k | 0 <= k < |tail| ensures tail[k] == rules[k + 1] { }
      }
    }
  }

  /** First failure wins: the form is accepted exactly when every rule holds,
      and the rule reported is the first one in `RuleOrder` that does not
      hold. */
  lemma ValidateReportsFirstFailure(editing: Option<User>, name: string, age: int, email: string)
    ensures var f := Form(editing, name, age, email);
            Validate(editing, name, age, email) == Ok <==>
            forall k | 0 <= k < |RuleOrder| :: Satisfies(RuleOrder[k], f)
    ensures var f := Form(editing, name, age, email);
            forall k | 0 <= k < |RuleOrder| ::
              Validate(editing, name, age, email) == Err(RuleOrder[k]) <==>
              (!Satisfies(RuleOrder[k], f) && forall j | 0 <= j < k :: Satisfies(RuleOrder[j], f))
  {
    ValidateIsFirstViolated(editing, name, age, email);
    RuleOrderDistinct();
    FirstViolatedIff(RuleOrder, Form(editing, name, age, email));
  }

  /** Without a user being edited the verdict is always the invalid-user
      error, whatever the buffer holds. */
  lemma NoUserIsInvalidUser(name: string, age: int, email: string)
    ensures Validate(None, name, age, email) == Err(UserSelected)
  {
  }

  /** A blank name (empty or all whitespace) is reported as missing, not as
      badly formatted. */
  lemma BlankNameIsMissing(u: User, name: string, age: int, email: string)
    requires forall i | 0 <= i < |name| :: IsWhitespace(name[i])
    ensures Validate(Some(u), name, age, email) == Err(NameGiven)
  {
  }

  /** Once the user and name checks pass: age 0 is reported as missing, and
      any other age fails the format check exactly when it lies outside
      10..99. */
  lemma AgeRules(u: User, name: string, age: int, email: string)
    requires WellFormedName(name)
    ensures age == 0 ==> Validate(Some(u), name, age, email) == Err(AgeGiven)
    ensures age != 0 ==> (Validate(Some(u), name, age, email) == Err(AgeFormat) <==> !(10 <= age <= 99))
  {
    NameMatchesIff(name);
    MatchedNameIsTrimmed(name);
    AgeFormatIff(age);
  }

  /** A name of letters alone, joined by single whitespace characters, with
      ages 7 and 100 both rejected by the age format check. */
  lemma AgeSevenRejected(u: User)
    ensures Validate(Some(u), "O K", 7, "a@b.com") == Err(AgeFormat)
    ensures Validate(Some(u), "O K", 100, "a@b.com") == Err(AgeFormat)
  {
    var name := "O K";
    NameOKMatches(name);
    AgeFormatIff(7);
    AgeFormatIff(100);
  }

  /** "O K" is a non-blank, well-formed name. The literal arrives as a
      parameter pinned by the precondition so that the solver does not
      evaluate the matchers on the literal itself, which is far costlier. */
  lemma NameOKMatches(name: string)
    requires name == "O K"
    ensures Trim(name) != [] && NameMatches(name)
  {
    assert !IsWhitespace(name[0]);
    assert name[1..] == " K" && name[1..][1..] == "K";
    assert NameMatches("K");
  }

  /** A well-formed edit is accepted. */
  lemma WellFormedEditAccepted(u: User)
    ensures Validate(Some(u), "Jon Ng", 45, "jon@ng.com") == Ok
  {
    NameJonNg("Jon Ng");
    AgeFormatIff(45);
    EmailJon("jon@ng.com");
  }

  /** "Jon Ng" is a non-blank, well-formed name; the literal is a pinned
      parameter for the same reason as in `NameOKMatches`. */
  lemma NameJonNg(name: string)
    requires name == "Jon Ng"
    ensures Trim(name) != [] && NameMatches(name)
  {
    assert !IsWhitespace(name[0]);
    assert WellFormedName(name);
    NameMatchesIff(name);
  }

  /** "jon@ng.com" is a valid address; the literal is a pinned parameter for
      the same reason as in `NameOKMatches`. */
  lemma EmailJon(email: string)
    requires email == "jon@ng.com"
    ensures email != [] && ValidEmail(email)
  {
    assert email[..3] == "jon" && email[4..6] == "ng" && email[7..] == "com";
    OneTldAccepted(email, 3, 6);
  }
}
