/** The field validators of `User.prototype` in new.js: `isValidAge`,
    `isValidCapsule`, `isValidString`, `isValidGender`, the `validProperty`
    dispatcher and `setProperty`. Their argument is what an edit box holds: a string. */
module Validators {
  import opened Wrappers
  import opened JsValues
  import opened Users

  /** `isValidAge`: not NaN once coerced, and strictly between 0 and 120. The text of
      an integer is a valid age exactly when the integer lies in that range, and every
      valid age is a valid capsule. */
  function IsValidAge(age: string): (b: bool)
    ensures forall n :: age == Text(Num(n)) ==> (b <==> 0 < n < 120)
    ensures b ==> IsValidCapsule(age)
  {
    forall n | age == Text(Num(n)) ensures ParseNumber(age) == Some(n) {
      ParseText(n);
    }
    match ParseNumber(age)
    case None => false
    case Some(n) => 0 < n < 120
  }

  /** `isValidCapsule`: not NaN once coerced, and positive. The text of an integer is
      a valid capsule exactly when the integer is positive; the blank string coerces
      to 0 and is not one. */
  function IsValidCapsule(capsule: string): (b: bool)
    ensures forall n :: capsule == Text(Num(n)) ==> (b <==> n > 0)
    ensures capsule == "" ==> !b
  {
    forall n | capsule == Text(Num(n)) ensures ParseNumber(capsule) == Some(n) {
      ParseText(n);
    }
    match ParseNumber(capsule)
    case None => false
    case Some(n) => n > 0
  }

  /** The regular expression `/^[a-zA-Z\s]*$/`, one character at a time. */
  function MatchesLettersAndSpaces(s: string): (b: bool)
    ensures b <==> forall i :: 0 <= i < |s| ==> IsAsciiLetter(s[i]) || IsWhitespace(s[i])
  {
    if s == [] then true
    else
      assert forall i :: 1 <= i < |s| ==> s[i] == s[1..][i - 1];
      (IsAsciiLetter(s[0]) || IsWhitespace(s[0])) && MatchesLettersAndSpaces(s[1..])
  }

  /** `isValidString`: non-empty, and every character an ASCII letter or whitespace. */
  function IsValidString(str: string): (b: bool)
    ensures b <==> |str| > 0 && forall i :: 0 <= i < |str| ==> IsAsciiLetter(str[i]) || IsWhitespace(str[i])
  {
    |str| > 0 && MatchesLettersAndSpaces(str)
  }

  /** `isValidGender`: "male" or "female" once lowercased, which accepts exactly the
      spellings of those two words in any mix of upper and lower case. */
  function IsValidGender(gender: string): (b: bool)
    ensures b <==> CaseVariant(gender, "male") || CaseVariant(gender, "female")
  {
    LowerIsWord(gender, "male");
    LowerIsWord(gender, "female");
    Lower(gender) == "male" || Lower(gender) == "female"
  }

  /** `validProperty(property, value)`: picks the rule by property name and throws
      for a name it has no rule for, `id` included. */
  function ValidProperty(property: string, value: string): (r: Result<bool, Error>)
    ensures r.Err? <==> property !in ["firstName", "lastName", "hobby", "city", "age", "capsule", "gender"]
    ensures r.Err? ==> r.error == NoSuchProperty(property)
    ensures property in ["firstName", "lastName", "hobby", "city"] ==> r == Ok(IsValidString(value))
    ensures property == "age" ==> r == Ok(IsValidAge(value))
    ensures property == "capsule" ==> r == Ok(IsValidCapsule(value))
    ensures property == "gender" ==> r == Ok(IsValidGender(value))
  {
    match FieldNamed(property)
    case Some(FirstName) => Ok(IsValidString(value))
    case Some(LastName) => Ok(IsValidString(value))
    case Some(Hobby) => Ok(IsValidString(value))
    case Some(City) => Ok(IsValidString(value))
    case Some(Age) => Ok(IsValidAge(value))
    case Some(Capsule) => Ok(IsValidCapsule(value))
    case Some(Gender) => Ok(IsValidGender(value))
    case _ => Err(NoSuchProperty(property))
  }

  /** `setProperty(property, value)`: the edited property takes the string typed
      into its box; the record's other properties stay. */
  function SetProperty(u: User, f: Field, value: string): (r: User)
    ensures Get(r, f) == Str(value)
    ensures forall g :: g != f ==> Get(r, g) == Get(u, g)
  {
    Put(u, f, Str(value))
  }

  /** "30" is a valid age and "200" is not. */
  lemma AgeExamples()
    ensures IsValidAge("30") && !IsValidAge("200")
  {
    ParseDigits("30", 30);
    ParseDigits("200", 200);
  }

  /** Text that is not a number is neither an age nor a capsule; the blank string
      coerces to 0, which neither rule accepts. */
  lemma NonNumericExamples()
    ensures !IsValidAge("abc") && !IsValidCapsule("abc")
    ensures !IsValidAge("") && !IsValidCapsule("")
  {
    assert TrimEnd(TrimStart("abc")) == "abc";
  }

  lemma ParseDigits(s: string, n: nat)
    requires s != [] && AllDigits(s) && DigitsValue(s) == n
    ensures ParseNumber(s) == Some(n)
  {
    TrimDigits(s);
  }

  /** What the text rules say of a few concrete inputs. */
  lemma TextExamples()
    ensures IsValidString("Anna") && !IsValidString("") && !IsValidString("Ann4")
    ensures IsValidGender("Female") && IsValidGender("MALE") && !IsValidGender("other")
  {
    assert "Ann4"[3] == '4';
    assert Lower("Female") == "female";
    assert Lower("MALE") == "male";
    assert Lower("other")[0] == 'o';
  }

  function UpperChar(c: char): char {
    if 'a' <= c <= 'z' then (c as int - 32) as char else c
  }

  /** `g` spells the lower-case ASCII word `w` with any mix of capitals. */
  ghost predicate CaseVariant(g: string, w: string) {
    |g| == |w| && forall i :: 0 <= i < |g| ==> g[i] == w[i] || g[i] == UpperChar(w[i])
  }

  lemma LowerIsWord(g: string, w: string)
    requires forall i :: 0 <= i < |w| ==> 'a' <= w[i] <= 'z'
    ensures Lower(g) == w <==> CaseVariant(g, w)
  {
    if CaseVariant(g, w) {
      assert forall i :: 0 <= i < |g| ==> Lower(g)[i] == w[i];
    }
    if Lower(g) == w {
      forall i | 0 <= i < |g| ensures g[i] == w[i] || g[i] == UpperChar(w[i]) {
        assert LowerChar(g[i]) == w[i];
      }
    }
  }

  /** Committing a value that passed its rule keeps a well-typed record well typed. */
  lemma ValidKeepsWellTyped(u: User, property: string, value: string)
    requires WellTyped(u) && ValidProperty(property, value) == Ok(true)
    ensures FieldNamed(property).Some?
    ensures WellTyped(SetProperty(u, FieldNamed(property).value, value))
  {
    var f := FieldNamed(property).value;
    var r := SetProperty(u, f, value);
    assert Get(r, Id) == Get(u, Id);
  }
}
