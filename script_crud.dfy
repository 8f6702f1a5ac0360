/** `UserCRUD` of script.js, the earlier revision: records hold only the summary
    properties when the build returns, `editUser` tests the id for truthiness, and
    its commit step calls a method records do not have. */
module ScriptCrud {
  import opened Wrappers
  import opened JsValues
  import opened Users
  import opened OrderedMaps
  import Sequences
  import Views

  /** The pairs `createUsersDataset` sets: each summary's id with `new User(summary)`. */
  function Summaries(allUsers: seq<User>): (ps: seq<(Value, User)>)
    ensures |ps| == |allUsers|
    ensures forall i :: 0 <= i < |allUsers| ==> ps[i] == (allUsers[i].id, SummaryCopy(allUsers[i]))
  {
    seq(|allUsers|, i requires 0 <= i < |allUsers| => (allUsers[i].id, SummaryCopy(allUsers[i])))
  }

  /** The ids of the fetched list, in list order. */
  function Ids(allUsers: seq<User>): (ids: seq<Value>)
    ensures |ids| == |allUsers|
    ensures forall i :: 0 <= i < |allUsers| ==> ids[i] == allUsers[i].id
  {
    seq(|allUsers|, i requires 0 <= i < |allUsers| => allUsers[i].id)
  }

  /** Built into an empty map, the list gives exactly its ids as keys, each once and in
      the order of its first occurrence; a later record with the same id overwrites an
      earlier one. */
  lemma DatasetFromList(allUsers: seq<User>)
    ensures forall k :: k in FromPairs(Summaries(allUsers)).keys <==> k in Ids(allUsers)
    ensures OrderedByFirstIndex(FromPairs(Summaries(allUsers)).keys, Ids(allUsers))
    ensures forall i :: 0 <= i < |allUsers| && (forall j :: i < j < |allUsers| ==> allUsers[j].id != allUsers[i].id) ==>
              allUsers[i].id in FromPairs(Summaries(allUsers)).entries &&
              FromPairs(Summaries(allUsers)).entries[allUsers[i].id] == SummaryCopy(allUsers[i])
  {
    assert KeysOf(Summaries(allUsers)) == Ids(allUsers);
    PutAllOrder(Summaries(allUsers));
    forall i | 0 <= i < |allUsers| && (forall j :: i < j < |allUsers| ==> allUsers[j].id != allUsers[i].id)
      ensures allUsers[i].id in FromPairs(Summaries(allUsers)).entries &&
              FromPairs(Summaries(allUsers)).entries[allUsers[i].id] == SummaryCopy(allUsers[i])
    {
      PutAllLastWins(Empty(), Summaries(allUsers), i);
    }
  }

  class ScriptUserCrud {
    var users: OrderedMap<Value, User>

    ghost predicate Valid()
      reads this
    {
      OrderedMaps.Valid(users)
    }

    constructor ()
      ensures Valid() && users == Empty()
    {
      users := Empty();
    }

    /** `createUsersDataset`: each summary of the list is set under its id as a copy
        of its id, names and capsule. */
    method CreateUsersDataset(allUsers: seq<User>)
      requires Valid()
      modifies this
      ensures Valid()
      ensures users == PutAll(old(users), Summaries(allUsers))
    {
      for i := 0 to |allUsers|
        invariant Valid()
        invariant users == PutAll(old(users), Summaries(allUsers[..i]))
      {
        var user := allUsers[i];
        assert Summaries(allUsers[..i + 1])[..i] == Summaries(allUsers[..i]);
        users := Set(users, user.id, SummaryCopy(user));
      }
      assert allUsers[..|allUsers|] == allUsers;
    }

    /** `sortUsers(sortBy)`, as in new.js. */
    function SortUsers(sortBy: string, localeLeq: (string, string) -> bool): (r: Result<seq<User>, Error>)
      reads this
      requires Valid() && Sequences.TotalPreorder(localeLeq)
      ensures r.Err? <==> Views.SortKeyNamed(sortBy).None?
      ensures r.Err? ==> r.error == CannotSortBy(sortBy)
      ensures r.Ok? ==> multiset(r.value) == multiset(Values(users))
      ensures r.Ok? && Views.KeyDefined(Values(users), Views.SortKeyNamed(sortBy).value) ==>
                Views.OrderedBy(r.value, Views.SortKeyNamed(sortBy).value, localeLeq)
    {
      Views.Sort(Values(users), sortBy, localeLeq)
    }

    /** `search(searchBy, value)`, as in new.js. */
    function Search(searchBy: string, value: string): (r: seq<User>)
      reads this
      requires Valid()
      ensures Sequences.IsSubsequence(r, Values(users))
      ensures forall u :: multiset(r)[u] == if Views.Matches(u, searchBy, value) then multiset(Values(users))[u] else 0
    {
      Views.Search(Values(users), searchBy, value)
    }

    /** `searchUserById(userId)`: `Map.get`. */
    function SearchUserById(userId: Value): (r: Option<User>)
      reads this
      ensures r.Some? <==> userId in users.entries
      ensures r.Some? ==> r.value == users.entries[userId]
    {
      OrderedMaps.Get(users, userId)
    }

    /** `editUser(argsmap)` as written: when `argsmap.id` is truthy and present it
        calls `assign` on the record, which records do not have, so it throws a
        TypeError; otherwise it throws that the user does not exist. It never
        changes a record. */
    method EditUser(argsmap: Patch) returns (r: Result<(), Error>)
      requires Valid()
      modifies this
      ensures Valid() && users == old(users)
      ensures var id := if Id in argsmap then argsmap[Id] else Undefined;
              r == if Truthy(id) && id in users.entries then Err(TypeError) else Err(UserDoesNotExist(id))
    {
      var id := if Id in argsmap then argsmap[Id] else Undefined;
      if Truthy(id) && id in users.entries {
        r := Err(TypeError);
      } else {
        r := Err(UserDoesNotExist(id));
      }
    }

    /** `editUser(argsmap)` as evidently intended, with `Object.assign` in place of
        the missing method: under the same truthiness guard the given properties
        are assigned onto the stored record, which keeps its place. */
    method EditUserIntended(argsmap: Patch) returns (r: Result<(), Error>)
      requires Valid()
      modifies this
      ensures Valid()
      ensures var id := if Id in argsmap then argsmap[Id] else Undefined;
              if Truthy(id) && id in old(users.entries) then
                r == Ok(()) && users == Set(old(users), id, Assign(old(users.entries[id]), argsmap)) &&
                forall f :: f in argsmap ==> Users.Get(users.entries[id], f) == argsmap[f]
              else
                r == Err(UserDoesNotExist(id)) && users == old(users)
    {
      var id := if Id in argsmap then argsmap[Id] else Undefined;
      if Truthy(id) && id in users.entries {
        users := Set(users, id, Assign(users.entries[id], argsmap));
        r := Ok(());
      } else {
        r := Err(UserDoesNotExist(id));
      }
    }

    /** `deleteUser(userId)`, as in new.js. */
    method DeleteUser(userId: Value) returns (r: Result<(), Error>)
      requires Valid()
      modifies this
      ensures Valid()
      ensures userId in old(users.entries) ==> r == Ok(()) && users == Delete(old(users), userId)
      ensures userId !in old(users.entries) ==> r == Err(UserDoesNotExist(userId)) && users == old(users)
      ensures SearchUserById(userId).None?
    {
      if userId in users.entries {
        users := Delete(users, userId);
        r := Ok(());
      } else {
        r := Err(UserDoesNotExist(userId));
      }
    }
  }

  /** Amy's record, loaded, and an edit of her first name: the edit as written
      throws and leaves "Amy"; the intended edit succeeds and stores "Anna". */
  method EditNeverApplies() returns (asWritten: Result<(), Error>, nameAfter: Value,
                                     intended: Result<(), Error>, nameIntended: Value)
    ensures asWritten == Err(TypeError) && nameAfter == Str("Amy")
    ensures intended == Ok(()) && nameIntended == Str("Anna")
  {
    var crud := new ScriptUserCrud();
    crud.CreateUsersDataset([Views.Amy]);
    PutAllKeys(Empty(), Summaries([Views.Amy]));
    assert KeysOf(Summaries([Views.Amy])) == [Num(1)];
    assert crud.users.entries[Num(1)] == SummaryCopy(Views.Amy) by {
      PutAllLastWins(Empty(), Summaries([Views.Amy]), 0);
    }
    var edit := map[Id := Num(1), FirstName := Str("Anna")];
    asWritten := crud.EditUser(edit);
    nameAfter := crud.users.entries[Num(1)].firstName;
    intended := crud.EditUserIntended(edit);
    nameIntended := crud.users.entries[Num(1)].firstName;
  }
}
