/** The two derived views `UserCRUD` offers over its records, identical in new.js
    and script.js: `sortUsers` and `search`. */
module Views {
  import opened Wrappers
  import opened JsValues
  import opened Users
  import opened Sequences

  /** How `sortUsers` compares records: with `localeCompare` on a text property,
      by subtraction on a numeric one. */
  datatype SortKey = ByText(f: Field) | ByNumber(f: Field)

  /** The `switch` of `sortUsers`. */
  function SortKeyNamed(sortBy: string): (r: Option<SortKey>)
    ensures r.None? <==> sortBy !in ["firstName", "lastName", "city", "gender", "hobby", "id", "capsule", "age"]
    ensures r.Some? ==> Name(r.value.f) == sortBy
    ensures r.Some? ==> (r.value.ByText? <==> sortBy in ["firstName", "lastName", "city", "gender", "hobby"])
  {
    match FieldNamed(sortBy)
    case Some(f) => if f == Id || f == Capsule || f == Age then Some(ByNumber(f)) else Some(ByText(f))
    case None => None
  }

  /** The numeric order, with NaN placed first. */
  predicate NumLeq(a: Option<int>, b: Option<int>) {
    a.None? || (b.Some? && a.value <= b.value)
  }

  lemma NumLeqTotalPreorder()
    ensures TotalPreorder(NumLeq)
  {
  }

  function TextKey(f: Field): User -> string {
    u => Text(Get(u, f))
  }

  function NumberKey(f: Field): User -> Option<int> {
    u => ToNumber(Get(u, f))
  }

  /** Every record holds a usable value for the key: a string for a text key, a
      value that coerces to a number for a numeric key. */
  ghost predicate KeyDefined(users: seq<User>, key: SortKey) {
    match key
    case ByText(f) => forall i :: 0 <= i < |users| ==> Get(users[i], f).Str?
    case ByNumber(f) => forall i :: 0 <= i < |users| ==> ToNumber(Get(users[i], f)).Some?
  }

  /** Non-decreasing under the comparator `sortUsers` picks for the key. */
  ghost predicate OrderedBy(s: seq<User>, key: SortKey, localeLeq: (string, string) -> bool) {
    match key
    case ByText(f) => forall i, j :: 0 <= i < j < |s| ==> localeLeq(Text(Get(s[i], f)), Text(Get(s[j], f)))
    case ByNumber(f) => forall i, j :: 0 <= i < j < |s| ==> NumLeq(ToNumber(Get(s[i], f)), ToNumber(Get(s[j], f)))
  }

  /** `Array.from(users).sort(comparator)` for the key `sortBy`: a permutation of
      the records, in order when every record holds a usable value for the key;
      an unsupported key throws. `localeLeq` is the locale's string order. */
  function Sort(users: seq<User>, sortBy: string, localeLeq: (string, string) -> bool): (r: Result<seq<User>, Error>)
    requires TotalPreorder(localeLeq)
    ensures r.Err? <==> SortKeyNamed(sortBy).None?
    ensures r.Err? ==> r.error == CannotSortBy(sortBy)
    ensures r.Ok? ==> multiset(r.value) == multiset(users)
    ensures r.Ok? && KeyDefined(users, SortKeyNamed(sortBy).value) ==>
              OrderedBy(r.value, SortKeyNamed(sortBy).value, localeLeq)
  {
    match SortKeyNamed(sortBy)
    case None => Err(CannotSortBy(sortBy))
    case Some(ByText(f)) => Ok(SortBy(users, TextKey(f), localeLeq))
    case Some(ByNumber(f)) =>
      NumLeqTotalPreorder();
      Ok(SortBy(users, NumberKey(f), NumLeq))
  }

  /** The test of `search`: the lowercased string form of the property starts with
      the lowercased search text, that is, the text is no longer than the property's
      string form and agrees with its start letter by letter, case aside. */
  function Matches(u: User, searchBy: string, value: string): (b: bool)
    ensures var t := Text(Prop(u, searchBy));
            b <==> |value| <= |t| && forall i :: 0 <= i < |value| ==> LowerChar(t[i]) == LowerChar(value[i])
  {
    var t := Text(Prop(u, searchBy));
    assert |value| <= |t| ==> (Lower(t)[..|value|] == Lower(value) <==>
                               forall i :: 0 <= i < |value| ==> Lower(t)[..|value|][i] == Lower(value)[i]);
    StartsWith(Lower(Text(Prop(u, searchBy))), Lower(value))
  }

  /** `Array.from(users).filter(...)` of `search`: the matching records, in their
      order, each once for each time it occurs. The property name is not checked. */
  function Search(users: seq<User>, searchBy: string, value: string): (r: seq<User>)
    ensures IsSubsequence(r, users)
    ensures forall u :: multiset(r)[u] == if Matches(u, searchBy, value) then multiset(users)[u] else 0
  {
    Filter(users, u => Matches(u, searchBy, value))
  }

  /** An empty search text matches every record: the search gives back all of them, in order. */
  lemma SearchEmpty(users: seq<User>, searchBy: string)
    ensures Search(users, searchBy, "") == users
  {
    FilterAll(users, u => Matches(u, searchBy, ""));
  }

  lemma {:induction false} FilterNone<T(!new)>(s: seq<T>, p: T -> bool)
    requires forall i :: 0 <= i < |s| ==> !p(s[i])
    ensures Filter(s, p) == []
  {
    if s != [] {
      FilterNone(s[1..], p);
    }
  }

  /** A property name that is not one of the record's reads as `undefined`, so the
      search compares the text "undefined": it gives every record or none. */
  lemma SearchUnknownProperty(users: seq<User>, searchBy: string, value: string)
    requires FieldNamed(searchBy).None?
    ensures Search(users, searchBy, value) == if StartsWith("undefined", Lower(value)) then users else []
  {
    assert Lower("undefined") == "undefined";
    if StartsWith("undefined", Lower(value)) {
      FilterAll(users, u => Matches(u, searchBy, value));
    } else {
      FilterNone(users, u => Matches(u, searchBy, value));
    }
  }

  lemma {:induction false} FilterSame<T(!new)>(s: seq<T>, p: T -> bool, q: T -> bool)
    requires forall x :: p(x) == q(x)
    ensures Filter(s, p) == Filter(s, q)
  {
    if s != [] {
      FilterSame(s[1..], p, q);
    }
  }

  /** The search ignores the case of the search text. */
  lemma SearchIgnoresCase(users: seq<User>, searchBy: string, value: string)
    ensures Search(users, searchBy, value) == Search(users, searchBy, Lower(value))
  {
    assert Lower(Lower(value)) == Lower(value);
    FilterSame(users, u => Matches(u, searchBy, value), u => Matches(u, searchBy, Lower(value)));
  }

  /** Records as the validators leave them hold a usable value for every sort key,
      so `Sort` orders them fully. */
  lemma WellTypedKeyDefined(users: seq<User>, sortBy: string)
    requires forall i :: 0 <= i < |users| ==> WellTyped(users[i])
    requires SortKeyNamed(sortBy).Some?
    ensures KeyDefined(users, SortKeyNamed(sortBy).value)
  {
  }

  /** Sorting the result of `sortUsers` again by the same key returns it unchanged. */
  lemma SortTwice(users: seq<User>, sortBy: string, localeLeq: (string, string) -> bool)
    requires TotalPreorder(localeLeq)
    ensures Sort(users, sortBy, localeLeq).Ok? ==>
              Sort(Sort(users, sortBy, localeLeq).value, sortBy, localeLeq) == Sort(users, sortBy, localeLeq)
  {
    match SortKeyNamed(sortBy)
    case None =>
    case Some(ByText(f)) =>
      SortBySorted(SortBy(users, TextKey(f), localeLeq), TextKey(f), localeLeq);
    case Some(ByNumber(f)) =>
      NumLeqTotalPreorder();
      SortBySorted(SortBy(users, NumberKey(f), NumLeq), NumberKey(f), NumLeq);
  }

  /** Two sample records: Amy, aged 30, and Bob, aged 25. */
  const Amy := User(Num(1), Str("Amy"), Undefined, Undefined, Num(30), Undefined, Undefined, Undefined)
  const Bob := User(Num(2), Str("Bob"), Undefined, Undefined, Num(25), Undefined, Undefined, Undefined)

  /** Sorting Amy and Bob by age puts Bob first. */
  lemma SortScenario(localeLeq: (string, string) -> bool)
    requires TotalPreorder(localeLeq)
    ensures Sort([Amy, Bob], "age", localeLeq) == Ok([Bob, Amy])
  {
    NumLeqTotalPreorder();
    assert !NumLeq(ToNumber(Num(30)), ToNumber(Num(25)));
    assert SortKeyNamed("age") == Some(ByNumber(Age));
    assert [Amy, Bob][1..] == [Bob];
    assert SortBy([Bob], NumberKey(Age), NumLeq) == [Bob];
    assert Insert(Amy, [Bob], NumberKey(Age), NumLeq) == [Bob, Amy];
  }

  /** Searching first names for "a" finds Amy alone. */
  lemma SearchScenario()
    ensures Search([Amy, Bob], "firstName", "a") == [Amy]
  {
    assert Prop(Amy, "firstName") == Str("Amy") && Prop(Bob, "firstName") == Str("Bob");
    assert Lower("Amy") == "amy" && Lower("Bob") == "bob" && Lower("a") == "a";
    assert !StartsWith("bob", "a") by {
      assert "bob"[..1][0] != "a"[0];
    }
    assert [Amy, Bob][1..] == [Bob] && [Bob][1..] == [];
  }

  /** Searching with "A" finds the same: the text's case does not matter. */
  lemma SearchScenarioUpperCase()
    ensures Search([Amy, Bob], "firstName", "A") == [Amy]
  {
    SearchScenario();
    assert Lower("A") == "a";
    SearchIgnoresCase([Amy, Bob], "firstName", "A");
  }
}
