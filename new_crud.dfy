/** `UserCRUD` of new.js, the later revision: the map from user id to record, its
    views, guarded edit and delete, the dataset build from the fetched list and the
    restore from a stored snapshot; and the validate-then-commit step of `confirm`. */
module NewCrud {
  import opened Wrappers
  import opened JsValues
  import opened Users
  import opened Validators
  import opened OrderedMaps
  import Sequences
  import Views

  /** What the detail request for one summary gave: the parsed body, or a failure. */
  datatype Fetched = Detail(fields: Patch) | Failed(status: int)

  /** How far the dataset build gets: the index of the first failed detail request. */
  function FirstFailure(listing: seq<(User, Fetched)>): (k: nat)
    ensures k <= |listing|
    ensures forall j :: 0 <= j < k ==> listing[j].1.Detail?
    ensures k < |listing| ==> listing[k].1.Failed?
  {
    if listing == [] then 0
    else if listing[0].1.Failed? then 0
    else 1 + FirstFailure(listing[1..])
  }

  /** `new User(user)` followed by `getUserInfoData`: the summary with the detail
      assigned onto it, keyed by the summary's id. */
  function Merged(listing: seq<(User, Fetched)>): (ps: seq<(Value, User)>)
    requires forall j :: 0 <= j < |listing| ==> listing[j].1.Detail?
    ensures |ps| == |listing|
    ensures forall j :: 0 <= j < |listing| ==>
              ps[j] == (listing[j].0.id, Assign(listing[j].0, listing[j].1.fields))
  {
    seq(|listing|, j requires 0 <= j < |listing| => (listing[j].0.id, Assign(listing[j].0, listing[j].1.fields)))
  }

  /** One more successful request is one more merged pair. */
  lemma MergedSnoc(listing: seq<(User, Fetched)>, i: nat)
    requires i < |listing| && forall j :: 0 <= j <= i ==> listing[j].1.Detail?
    ensures Merged(listing[..i + 1]) == Merged(listing[..i]) + [(listing[i].0.id, Assign(listing[i].0, listing[i].1.fields))]
  {
    assert listing[..i + 1][..i] == listing[..i];
  }

  /** The summary ids of the listing, in list order. */
  function SummaryIds(listing: seq<(User, Fetched)>): (ids: seq<Value>)
    ensures |ids| == |listing|
    ensures forall i :: 0 <= i < |listing| ==> ids[i] == listing[i].0.id
  {
    seq(|listing|, i requires 0 <= i < |listing| => listing[i].0.id)
  }

  /** When every detail request succeeds, a build into an empty map keys it by exactly
      the summary ids, each once and in the order of its first occurrence, and a
      later summary with the same id overwrites an earlier one. */
  lemma DatasetFromListing(listing: seq<(User, Fetched)>)
    requires forall j :: 0 <= j < |listing| ==> listing[j].1.Detail?
    ensures forall k :: k in FromPairs(Merged(listing)).keys <==> k in SummaryIds(listing)
    ensures OrderedByFirstIndex(FromPairs(Merged(listing)).keys, SummaryIds(listing))
    ensures forall i :: 0 <= i < |listing| && (forall j :: i < j < |listing| ==> listing[j].0.id != listing[i].0.id) ==>
              listing[i].0.id in FromPairs(Merged(listing)).entries &&
              FromPairs(Merged(listing)).entries[listing[i].0.id] == Assign(listing[i].0, listing[i].1.fields)
  {
    assert KeysOf(Merged(listing)) == SummaryIds(listing);
    PutAllOrder(Merged(listing));
    forall i | 0 <= i < |listing| && (forall j :: i < j < |listing| ==> listing[j].0.id != listing[i].0.id)
      ensures listing[i].0.id in FromPairs(Merged(listing)).entries &&
              FromPairs(Merged(listing)).entries[listing[i].0.id] == Assign(listing[i].0, listing[i].1.fields)
    {
      PutAllLastWins(Empty(), Merged(listing), i);
    }
  }

  /** The outcome of `confirm` when nothing threw. */
  datatype Outcome = Committed | Rejected(flagged: seq<string>)

  class UserCrud {
    var users: OrderedMap<Value, User>

    ghost predicate Valid()
      reads this
    {
      OrderedMaps.Valid(users)
    }

    /** Every record is kept under its own id. */
    ghost predicate IdsMatch()
      reads this
    {
      forall k :: k in users.entries ==> users.entries[k].id == k
    }

    constructor ()
      ensures Valid() && users == Empty()
    {
      users := Empty();
    }

    /** `getDataFromLocalStorage`: the map is replaced by `new Map(pairs)` built from
        the stored `[id, record]` pairs. */
    method GetDataFromLocalStorage(stored: seq<(Value, User)>)
      modifies this
      ensures Valid() && users == FromPairs(stored)
    {
      users := FromPairs(stored);
    }

    /** `createUsersDataset`: for each summary in turn, its detail is fetched and
        assigned onto it and the record is set under the summary's id. A failed
        request throws 400 and ends the build; the records set before it stay. */
    method CreateUsersDataset(listing: seq<(User, Fetched)>) returns (r: Result<(), Error>)
      requires Valid()
      modifies this
      ensures Valid()
      ensures r == if FirstFailure(listing) < |listing| then Err(HttpStatus(400)) else Ok(())
      ensures users == PutAll(old(users), Merged(listing[..FirstFailure(listing)]))
    {
      for i := 0 to |listing|
        invariant Valid()
        invariant forall j :: 0 <= j < i ==> listing[j].1.Detail?
        invariant users == PutAll(old(users), Merged(listing[..i]))
      {
        var (summary, fetched) := listing[i];
        if fetched.Failed? {
          return Err(HttpStatus(400));
        }
        var newUser := Assign(summary, fetched.fields);
        MergedSnoc(listing, i);
        PutAllSnoc(old(users), Merged(listing[..i]), (summary.id, newUser));
        users := Set(users, summary.id, newUser);
      }
      assert listing[..|listing|] == listing;
      return Ok(());
    }

    /** `sortUsers(sortBy)`: a fresh array of all records, in order for the key;
        the map is not touched. */
    function SortUsers(sortBy: string, localeLeq: (string, string) -> bool): (r: Result<seq<User>, Error>)
      reads this
      requires Valid() && Sequences.TotalPreorder(localeLeq)
      ensures r.Err? <==> Views.SortKeyNamed(sortBy).None?
      ensures r.Err? ==> r.error == CannotSortBy(sortBy)
      ensures r.Ok? ==> multiset(r.value) == multiset(Values(users))
      ensures r.Ok? && Views.KeyDefined(Values(users), Views.SortKeyNamed(sortBy).value) ==>
                Views.OrderedBy(r.value, Views.SortKeyNamed(sortBy).value, localeLeq)
    {
      Views.Sort(Values(users), sortBy, localeLeq)
    }

    /** `search(searchBy, value)`: the records whose property matches, in map order. */
    function Search(searchBy: string, value: string): (r: seq<User>)
      reads this
      requires Valid()
      ensures Sequences.IsSubsequence(r, Values(users))
      ensures forall u :: multiset(r)[u] == if Views.Matches(u, searchBy, value) then multiset(Values(users))[u] else 0
    {
      Views.Search(Values(users), searchBy, value)
    }

    /** `[...usersCrud.users]`, the pairs `init` stores: rebuilding a map from them
        gives this map back. */
    function Snapshot(): (pairs: seq<(Value, User)>)
      reads this
      requires Valid()
      ensures |pairs| == |users.keys|
      ensures FromPairs(pairs) == users
    {
      EntriesRoundTrip(users);
      Entries(users)
    }

    /** `searchUserById(userId)`: `Map.get`, `None` for `undefined`. */
    function SearchUserById(userId: Value): (r: Option<User>)
      reads this
      ensures r.Some? <==> userId in users.entries
      ensures r.Some? ==> r.value == users.entries[userId]
    {
      OrderedMaps.Get(users, userId)
    }

    /** `editUser(argsmap)`: when `argsmap.id` is defined and present, its properties
        are assigned onto that record, which keeps its place; otherwise it throws and
        nothing changes. */
    method EditUser(argsmap: Patch) returns (r: Result<(), Error>)
      requires Valid()
      modifies this
      ensures Valid()
      ensures var id := if Id in argsmap then argsmap[Id] else Undefined;
              if id != Undefined && id in old(users.entries) then
                r == Ok(()) && users == Set(old(users), id, Assign(old(users.entries[id]), argsmap))
              else
                r == Err(UserDoesNotExist(id)) && users == old(users)
    {
      var id := if Id in argsmap then argsmap[Id] else Undefined;
      if id != Undefined && id in users.entries {
        users := Set(users, id, Assign(users.entries[id], argsmap));
        r := Ok(());
      } else {
        r := Err(UserDoesNotExist(id));
      }
    }

    /** `deleteUser(userId)`: removes exactly that key, or throws when it is absent. */
    method DeleteUser(userId: Value) returns (r: Result<(), Error>)
      requires Valid()
      modifies this
      ensures Valid()
      ensures userId in old(users.entries) ==> r == Ok(()) && users == Delete(old(users), userId)
      ensures userId !in old(users.entries) ==> r == Err(UserDoesNotExist(userId)) && users == old(users)
      ensures SearchUserById(userId).None?
    {
      if userId in users.entries {
        users := Delete(users, userId);
        r := Ok(());
      } else {
        r := Err(UserDoesNotExist(userId));
      }
    }
  }

  /** `fields.every(...)` of `confirm`: the rules are asked in order, stopping at the
      first that fails; an unknown column throws. */
  function Every(edits: seq<(string, string)>): (r: Result<bool, Error>)
    ensures r == Ok(true) <==> forall i :: 0 <= i < |edits| ==> ValidProperty(edits[i].0, edits[i].1) == Ok(true)
    ensures r == Ok(false) ==> exists i :: 0 <= i < |edits| && ValidProperty(edits[i].0, edits[i].1) == Ok(false)
    ensures r.Err? ==> exists i :: 0 <= i < |edits| && ValidProperty(edits[i].0, edits[i].1) == Err(r.error)
    ensures r != Ok(true) ==>
              exists i :: (0 <= i < |edits| && ValidProperty(edits[i].0, edits[i].1) == r &&
                           forall j :: 0 <= j < i ==> ValidProperty(edits[j].0, edits[j].1) == Ok(true))
  {
    if edits == [] then Ok(true)
    else
      var rest := Every(edits[1..]);
      assert forall i :: 1 <= i < |edits| ==> edits[i] == edits[1..][i - 1];
      match ValidProperty(edits[0].0, edits[0].1)
      case Err(e) => Err(e)
      case Ok(false) => Ok(false)
      case Ok(true) => rest
  }

  /** The `else` branch of `confirm`: every column is asked again and the names of
      those whose value fails are flagged; an unknown column throws. */
  function Flagged(edits: seq<(string, string)>): (r: Result<seq<string>, Error>)
    ensures r.Ok? <==> forall i :: 0 <= i < |edits| ==> ValidProperty(edits[i].0, edits[i].1).Ok?
    ensures r.Ok? ==> (r.value == [] <==> forall i :: 0 <= i < |edits| ==> ValidProperty(edits[i].0, edits[i].1) == Ok(true))
    ensures r.Ok? ==> forall n :: n in r.value <==> exists i :: 0 <= i < |edits| && edits[i].0 == n && ValidProperty(n, edits[i].1) == Ok(false)
    ensures r.Err? ==>
              exists i :: (0 <= i < |edits| && ValidProperty(edits[i].0, edits[i].1) == Err(r.error) &&
                           forall j :: 0 <= j < i ==> ValidProperty(edits[j].0, edits[j].1).Ok?)
  {
    if edits == [] then Ok([])
    else
      var rest := Flagged(edits[1..]);
      assert forall i :: 1 <= i < |edits| ==> edits[i] == edits[1..][i - 1];
      match ValidProperty(edits[0].0, edits[0].1)
      case Err(e) => Err(e)
      case Ok(ok) =>
        match rest
        case Err(e) => Err(e)
        case Ok(names) => Ok(if ok then names else [edits[0].0] + names)
  }

  /** `userData.setProperty(columnType, value)` for each column in turn. A name
      outside the record's eight fields adds a property this model does not track.
      Each field afterwards either keeps its value or holds the text of an edit that
      names it. */
  function ApplyEdits(u: User, edits: seq<(string, string)>): (r: User)
    ensures forall f :: Users.Get(r, f) == Users.Get(u, f) ||
                        exists i :: 0 <= i < |edits| && edits[i].0 == Name(f) && Users.Get(r, f) == Str(edits[i].1)
    decreases |edits|
  {
    if edits == [] then u
    else
      var n := |edits| - 1;
      var before := ApplyEdits(u, edits[..n]);
      assert forall i :: 0 <= i < n ==> edits[..n][i] == edits[i];
      match FieldNamed(edits[n].0)
      case Some(f) => SetProperty(before, f, edits[n].1)
      case None => before
  }

  /** A field no edit names keeps its value. */
  lemma {:induction false} ApplyEditsUntouched(u: User, edits: seq<(string, string)>, f: Field)
    requires forall i :: 0 <= i < |edits| ==> FieldNamed(edits[i].0) != Some(f)
    ensures Users.Get(ApplyEdits(u, edits), f) == Users.Get(u, f)
    decreases |edits|
  {
    if edits != [] {
      var n := |edits| - 1;
      var front := edits[..n];
      assert forall i :: 0 <= i < n ==> front[i] == edits[i];
      ApplyEditsUntouched(u, front, f);
    }
  }

  /** Of several edits naming the same field, the last one wins. */
  lemma {:induction false} ApplyEditsLastWins(u: User, edits: seq<(string, string)>, f: Field, i: nat)
    requires i < |edits| && FieldNamed(edits[i].0) == Some(f)
    requires forall j :: i < j < |edits| ==> FieldNamed(edits[j].0) != Some(f)
    ensures Users.Get(ApplyEdits(u, edits), f) == Str(edits[i].1)
    decreases |edits|
  {
    var n := |edits| - 1;
    if i < n {
      var front := edits[..n];
      assert forall j :: 0 <= j < n ==> front[j] == edits[j];
      ApplyEditsLastWins(u, front, f, i);
    }
  }

  /** A column that passes its rule is one of the record's fields other than `id`. */
  lemma KnownColumn(column: string, value: string)
    requires ValidProperty(column, value).Ok?
    ensures FieldNamed(column).Some? && FieldNamed(column).value != Id
  {
  }

  /** Edits that all pass their rules keep the record well typed and never touch its id. */
  lemma {:induction false} ApplyValidEdits(u: User, edits: seq<(string, string)>)
    requires forall i :: 0 <= i < |edits| ==> ValidProperty(edits[i].0, edits[i].1) == Ok(true)
    ensures ApplyEdits(u, edits).id == u.id
    ensures WellTyped(u) ==> WellTyped(ApplyEdits(u, edits))
    decreases |edits|
  {
    if edits != [] {
      var n := |edits| - 1;
      var front := edits[..n];
      assert forall i :: 0 <= i < n ==> front[i] == edits[i];
      ApplyValidEdits(u, front);
      KnownColumn(edits[n].0, edits[n].1);
      assert Users.Get(ApplyEdits(u, edits), Id) == Users.Get(ApplyEdits(u, front), Id);
      if WellTyped(u) {
        ValidKeepsWellTyped(ApplyEdits(u, front), edits[n].0, edits[n].1);
      }
    }
  }

  /** `confirm(userId)`, with the row's inputs given as `edits` (column, value) in
      table order. A missing user throws a TypeError. When some value fails its rule
      nothing is written and the failing columns are flagged. Otherwise each value is
      set on the stored record itself, one after another, and that record is passed
      to `editUser`. */
  method Confirm(crud: UserCrud, userId: Value, edits: seq<(string, string)>) returns (r: Result<Outcome, Error>)
    requires crud.Valid()
    modifies crud
    ensures crud.Valid()
    ensures userId !in old(crud.users.entries) ==> r == Err(TypeError) && crud.users == old(crud.users)
    ensures userId in old(crud.users.entries) && Every(edits).Err? ==>
              r == Err(Every(edits).error) && crud.users == old(crud.users)
    ensures userId in old(crud.users.entries) && Every(edits) == Ok(false) ==>
              crud.users == old(crud.users) &&
              r == (if Flagged(edits).Ok? then Ok(Rejected(Flagged(edits).value)) else Err(Flagged(edits).error))
    ensures userId in old(crud.users.entries) && Every(edits) == Ok(true) ==>
              var u := ApplyEdits(old(crud.users.entries[userId]), edits);
              var mid := Set(old(crud.users), userId, u);
              if u.id != Undefined && u.id in mid.entries then
                r == Ok(Committed) && crud.users == Set(mid, u.id, u)
              else
                r == Err(UserDoesNotExist(u.id)) && crud.users == mid
    ensures old(crud.IdsMatch()) && userId in old(crud.users.entries) && Every(edits) == Ok(true) ==>
              crud.IdsMatch() &&
              crud.users == Set(old(crud.users), userId, ApplyEdits(old(crud.users.entries[userId]), edits)) &&
              r == (if userId == Undefined then Err(UserDoesNotExist(Undefined)) else Ok(Committed))
  {
    var found := crud.SearchUserById(userId);
    if found.None? {
      return Err(TypeError);
    }
    var userData := found.value;
    var isValidData := Every(edits);
    if isValidData.Err? {
      return Err(isValidData.error);
    }
    if !isValidData.value {
      var flagged := Flagged(edits);
      if flagged.Err? {
        return Err(flagged.error);
      }
      return Ok(Rejected(flagged.value));
    }
    ghost var stored := userData;
    SetSame(crud.users, userId);
    for i := 0 to |edits|
      invariant crud.Valid()
      invariant userData == ApplyEdits(stored, edits[..i])
      invariant crud.users == Set(old(crud.users), userId, userData)
    {
      var (column, value) := edits[i];
      assert edits[..i + 1][..i] == edits[..i];
      match FieldNamed(column) {
        case Some(f) => userData := SetProperty(userData, f, value);
        case None =>
      }
      SetTwice(old(crud.users), userId, crud.users.entries[userId], userData);
      crud.users := Set(crud.users, userId, userData);
    }
    assert edits[..|edits|] == edits;
    ghost var mid := crud.users;
    ApplyValidEdits(stored, edits);
    AssignWhole(if userData.id in mid.entries then mid.entries[userData.id] else userData, userData);
    var edited := crud.EditUser(AsPatch(userData));
    if edited.Err? {
      return Err(edited.error);
    }
    r := Ok(Committed);
    if old(crud.IdsMatch()) {
      SetTwice(old(crud.users), userId, userData, userData);
    }
  }

  /** An age of 200 fails its rule: nothing is written and only `age` is flagged. */
  lemma RejectedAge()
    ensures Every([("age", "200")]) == Ok(false)
    ensures Flagged([("age", "200")]) == Ok(["age"])
  {
    AgeExamples();
    assert [("age", "200")][1..] == [];
    assert ["age"] + [] == ["age"];
  }

  /** A valid first name and age both pass their rules. */
  lemma ValidNameAndAge()
    ensures Every([("firstName", "Anna"), ("age", "30")]) == Ok(true)
  {
    AgeExamples();
    TextExamples();
    var edits := [("firstName", "Anna"), ("age", "30")];
    assert ValidProperty(edits[0].0, edits[0].1) == Ok(true);
    assert ValidProperty(edits[1].0, edits[1].1) == Ok(true);
  }

  /** Committing a first name and an age writes each to its own field and leaves
      the others as they were. */
  lemma CommittedNameAndAge(u: User)
    ensures var w := ApplyEdits(u, [("firstName", "Anna"), ("age", "30")]);
            w.firstName == Str("Anna") && w.age == Str("30") &&
            w.id == u.id && w.lastName == u.lastName && w.capsule == u.capsule &&
            w.hobby == u.hobby && w.city == u.city && w.gender == u.gender
  {
    var edits := [("firstName", "Anna"), ("age", "30")];
    assert FieldNamed("firstName") == Some(FirstName) && FieldNamed("age") == Some(Age);
    assert edits[..1] == [("firstName", "Anna")] && edits[..1][..0] == [];
    var w1 := SetProperty(u, FirstName, "Anna");
    assert ApplyEdits(u, edits[..1]) == w1;
    var w := SetProperty(w1, Age, "30");
    assert ApplyEdits(u, edits) == w;
    assert Users.Get(w, FirstName) == Str("Anna") && Users.Get(w, Age) == Str("30");
    assert forall f :: f != FirstName && f != Age ==> Users.Get(w, f) == Users.Get(u, f);
    assert Users.Get(w, Id) == Users.Get(u, Id) && Users.Get(w, LastName) == Users.Get(u, LastName);
    assert Users.Get(w, Capsule) == Users.Get(u, Capsule) && Users.Get(w, Hobby) == Users.Get(u, Hobby);
    assert Users.Get(w, City) == Users.Get(u, City) && Users.Get(w, Gender) == Users.Get(u, Gender);
  }

  /** Deleting a stored user removes it; deleting it again fails. */
  method DeleteTwice() returns (first: Result<(), Error>, after: Option<User>, second: Result<(), Error>)
    ensures first == Ok(()) && after == None && second == Err(UserDoesNotExist(Num(1)))
  {
    var crud := new UserCrud();
    crud.GetDataFromLocalStorage([(Num(1), Views.Amy)]);
    PutAllKeys(Empty(), [(Num(1), Views.Amy)]);
    assert KeysOf([(Num(1), Views.Amy)]) == [Num(1)];
    first := crud.DeleteUser(Num(1));
    after := crud.SearchUserById(Num(1));
    second := crud.DeleteUser(Num(1));
  }
}
