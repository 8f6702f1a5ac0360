# Capsule users dataset manager, in Dafny

This project models the user dataset manager of a small browser application. Its
core is the `UserCRUD` object and the field validators on `User`. The manager
exists in two revisions:

- **new.js** is the later revision. It keeps a JavaScript `Map` from user id to a
  `User` record. It offers:
  - a sorted view (a string order for the name-like fields, a numeric order for
    `id`, `capsule` and `age`, an error for any other key);
  - a case-insensitive prefix search;
  - lookup by id, and a guarded edit and delete;
  - a dataset build from the fetched list and a restore from stored `[id, record]` pairs;
  - validators for age, capsule, names and gender, with a dispatcher that throws on
    an unknown property;
  - the validate-all-then-commit step of `confirm`.
- **script.js** is the earlier revision. Its `User` constructor copies only the
  summary properties and starts the detail request without awaiting it. It tests the
  id for truthiness in `editUser`, and that method's commit step calls a method
  records do not have (see Findings).

How the model is built:

- JavaScript values are `Value = Num(int) | Str(string) | Undefined` (`JsValues`).
- `Number()` coercion is `ParseNumber`, with `None` standing for NaN.
- A `Map` is an `OrderedMap`, a dictionary plus its keys in insertion order
  (`OrderedMaps`). `set` on a present key keeps its place, a new key is appended,
  `delete` drops it, and `values()` and `[...m]` follow that order.
- Records are `Users.User` values with the eight properties. An edit is a `Patch`.
  In new.js, `getUserInfoData` and `editUser` both use `Object.assign`, which is `Assign`.
- Each revision's `UserCRUD` is a class with a `users` field that its methods
  reassign: `NewCrud.UserCrud` and `ScriptCrud.ScriptUserCrud`. The two share the
  pure views in `Views` and the array operations in `Sequences`.
- `localeCompare` is a parameter `localeLeq`, required to be a total preorder.
- A thrown error is an `Err` of `Users.Error`, and the state is left as the code
  leaves it at the throw.

A failed detail request in `createUsersDataset` throws 400 after the earlier records
have been set (new.js:127-131). The code has no rollback, and
`NewCrud.UserCrud.CreateUsersDataset` keeps those records.

## Model

| member | source | states |
|---|---|---|
| JsValues.ParseText | new.js:156 | the string form `n + ''` of an integer reads back as that integer under `Number()` |
| JsValues.ParseNegative | new.js:65-66 | a minus sign before decimal digits reads as the negated digits |
| JsValues.NatToStringDigits | new.js:156 | the decimal form of a natural number is a non-empty digit string whose value is the number |
| Users.FieldNamed | new.js:47-57 | only the eight property names of a record resolve to a field, each to the field of that name |
| Users.FieldNamedName | new.js:47-57 | every field's name resolves back to that field |
| Users.Put | new.js:105 | `this[property] = value` changes that field to the value and no other field |
| Users.Prop | new.js:156 | `user[searchBy]` for a property's own name is that property's value, and `undefined` for a name that is not one of the eight properties |
| Users.Assign | new.js:62 | after `Object.assign(record, patch)` each field holds the patch's value where the patch has one and its old value elsewhere |
| Users.AsPatch | new.js:246 | a record passed as `argsmap` supplies all eight of its properties |
| Users.AssignWhole | new.js:165 | assigning a whole record onto another yields exactly the assigned record |
| Users.Extensionality | new.js:47-57 | two records with equal values in all eight fields are the same record |
| Users.SummaryCopy | script.js:40-46 | `new User(summary)` copies id, first name, last name and capsule; the other properties are undefined |
| Validators.MatchesLettersAndSpaces | new.js:74 | `/^[a-zA-Z\s]*$/` holds exactly when every character is an ASCII letter or JavaScript whitespace |
| Validators.ValidProperty | new.js:80-102 | first and last name, hobby and city use the string rule; age, capsule and gender use their own rules; any other name, `id` included, throws "no such property" |
| Validators.SetProperty | new.js:103-106 | the field holds the given string afterwards and every other field is unchanged |
| Validators.IsValidAge | new.js:65-67 | the text of an integer `n` is a valid age exactly when 0 < n < 120, and every valid age is also a valid capsule |
| Validators.IsValidCapsule | new.js:69-71 | the text of an integer `n` is a valid capsule exactly when n > 0; the blank string, which coerces to 0, is not one |
| Validators.IsValidString | new.js:73-75 | a string is valid exactly when it is non-empty and each of its characters is an ASCII letter or whitespace |
| Validators.IsValidGender | new.js:77-79 | a gender is valid exactly when it is "male" or "female" in any mix of upper and lower case |
| Validators.AgeExamples | new.js:65-67 | "30" is a valid age and "200" is not |
| Validators.NonNumericExamples | new.js:65-71 | a non-numeric string and the empty string are rejected by both the age and the capsule rule |
| Validators.ParseDigits | new.js:65-71 | a string of decimal digits coerces to its decimal value |
| Validators.TextExamples | new.js:73-79 | "Anna" is a valid name while "" and "Ann4" are not; "Female" and "MALE" are valid genders and "other" is not |
| Validators.LowerIsWord | new.js:78 | a string lowercases to a lowercase word exactly when each character is that word's letter in either case |
| Validators.ValidKeepsWellTyped | new.js:80-106 | setting a value that passed its rule keeps every name a string and age and capsule numeric |
| Sequences.Filter | new.js:155-158 | `filter` keeps exactly the elements satisfying the test, in their order, each as often as before |
| Sequences.FilterAll | new.js:155 | a filter whose test holds everywhere returns the sequence unchanged |
| Sequences.FilterDistinct | new.js:171 | filtering a sequence without repetitions leaves none |
| Sequences.Insert | new.js:152 | inserting into a sorted sequence adds exactly that element and keeps it sorted |
| Sequences.SortBy | new.js:152 | `sort` with a key comparator returns a permutation of its input, non-decreasing by the key |
| Sequences.SortBySorted | new.js:152 | sorting an already sorted sequence returns it unchanged |
| Sequences.SortedTail | new.js:152 | the tail of a sorted sequence is sorted |
| OrderedMaps.Get | new.js:161 | `Map.get` finds a value exactly for a present key, namely the stored one |
| OrderedMaps.Set | new.js:131 | `Map.set` stores the value; a present key keeps its place and a new key goes last |
| OrderedMaps.Delete | new.js:171 | `Map.delete` removes exactly that key and keeps the other keys in order without repetition |
| OrderedMaps.Values | new.js:152 | `Array.from(map.values())` lists each stored value once, in key order |
| OrderedMaps.Entries | new.js:365 | `[...map]` lists the `[key, value]` pairs in key order |
| OrderedMaps.SetSame | new.js:165 | setting a key to the value it holds changes nothing |
| OrderedMaps.SetTwice | new.js:131 | setting a key twice is the same as setting it once with the second value |
| OrderedMaps.PutAllSnoc | new.js:127-132 | one more pair in the list is one more `set` |
| OrderedMaps.PutAllKeys | new.js:127-132 | the keys after the inserts are the old keys, in their old order, followed by the new ones |
| OrderedMaps.PutAllUntouched | new.js:127-132 | a key absent from the list keeps its value |
| OrderedMaps.PutAllLastWins | new.js:127-132 | a later pair with the same key overwrites an earlier one |
| OrderedMaps.FromPairs | new.js:119 | `new Map(pairs)` holds exactly the keys that occur in the pairs, each once |
| OrderedMaps.PutAllOrder | new.js:119 | `new Map(pairs)` lists each key once, in the order of its first occurrence |
| OrderedMaps.EntriesRoundTrip | new.js:116-120 | rebuilding a map from its own `[...map]` pairs gives back the same keys, values and order |
| Views.SortKeyNamed | new.js:135-151 | the five name-like keys select the string order, `id`, `capsule` and `age` the numeric order, and every other key none |
| Views.NumLeqTotalPreorder | new.js:147 | the numeric comparator, with NaN placed first, is a total preorder |
| Views.Sort | new.js:134-153 | an unsupported key throws "cannot sort by"; otherwise the result is a permutation of the records, ordered under the key's comparator whenever every record holds a usable value for that key |
| Views.Matches | new.js:156-157 | a record matches exactly when the search text is no longer than the property's string form and agrees with its start letter by letter, case aside |
| Views.Search | new.js:154-159 | the result keeps the records' order and holds exactly the records whose lowercased string form of the property starts with the lowercased text |
| Views.SearchEmpty | new.js:154-159 | an empty search text returns every record, in order |
| Views.SearchUnknownProperty | new.js:156 | for a name that is not a record property, the search compares "undefined" and returns all records or none |
| Views.SearchIgnoresCase | new.js:157 | the search gives the same result for the text and for its lowercase form |
| Views.WellTypedKeyDefined | new.js:134-153 | records as the validators keep them hold a usable value for every supported key |
| Views.SortTwice | new.js:152 | sorting the sorted view again by the same key returns it unchanged |
| Views.SortScenario | new.js:134-153 | Amy (30) and Bob (25) sorted by age give Bob then Amy |
| Views.SearchScenario | new.js:154-159 | searching first names for "a" among Amy and Bob finds Amy alone |
| Views.SearchScenarioUpperCase | new.js:154-159 | searching first names for "A" finds Amy alone too |
| NewCrud.FirstFailure | new.js:127-131 | the build reaches exactly the summaries before the first failed detail request |
| NewCrud.Merged | new.js:129-131 | one pair per summary, in list order: the summary's id with the detail assigned onto the summary |
| NewCrud.MergedSnoc | new.js:129-131 | one more successful detail request adds one more merged record |
| NewCrud.UserCrud.constructor | new.js:110-113 | a new manager starts with an empty map |
| NewCrud.UserCrud.GetDataFromLocalStorage | new.js:116-120 | the map is replaced by the one built from the stored pairs |
| NewCrud.UserCrud.CreateUsersDataset | new.js:124-133 | each summary, with its detail assigned onto it, is set under its id in list order; the first failed request throws 400 and keeps what was set before it |
| NewCrud.DatasetFromListing | new.js:124-133 | built from empty, the keys are exactly the summary ids in order of first occurrence, and each id holds its last merged record |
| NewCrud.UserCrud.SortUsers | new.js:134-153 | `Views.Sort` over the map's values in insertion order, without touching the map |
| NewCrud.UserCrud.Search | new.js:154-159 | `Views.Search` over the map's values in insertion order, without touching the map |
| NewCrud.UserCrud.Snapshot | new.js:365 | the stored pairs rebuild exactly the current map |
| NewCrud.UserCrud.SearchUserById | new.js:160-162 | the stored record for a present id, nothing for an absent one |
| NewCrud.UserCrud.EditUser | new.js:163-168 | a defined, present id gets the patch assigned onto its record in place; otherwise it throws "does not exist" and nothing changes |
| NewCrud.UserCrud.DeleteUser | new.js:169-173 | a present id is removed with the other records untouched; an absent one throws and nothing changes; afterwards the id is not found |
| NewCrud.Every | new.js:229-236 | `every` is true exactly when all values pass their rules; otherwise the first column whose rule does not pass decides: false if its value fails, the throw if the column is unknown |
| NewCrud.Flagged | new.js:249-256 | the flagged columns are exactly those whose value fails its rule; none are flagged exactly when all pass; the first unknown column throws, all before it being known |
| NewCrud.ApplyEdits | new.js:238-241 | after the commit loop, each field either keeps its value or holds the text of an edit that names it |
| NewCrud.ApplyEditsUntouched | new.js:237-245 | a field no edit names keeps its value |
| NewCrud.ApplyEditsLastWins | new.js:237-245 | of several edits to one field, the last one wins |
| NewCrud.KnownColumn | new.js:80-102 | a column that passes its rule is one of the record's fields other than `id` |
| NewCrud.ApplyValidEdits | new.js:237-245 | edits that all pass their rules never change the id and keep a well-typed record well typed |
| NewCrud.Confirm | new.js:224-257 | a missing user is a TypeError; if any value fails, nothing is written and the failing columns are flagged; otherwise all values are written to the stored record and it is re-saved through `editUser` |
| NewCrud.RejectedAge | new.js:229-256 | an age of "200" fails, so nothing is written and only `age` is flagged |
| NewCrud.ValidNameAndAge | new.js:229-236 | a first name "Anna" with an age "30" passes every rule |
| NewCrud.CommittedNameAndAge | new.js:237-245 | committing "Anna" and "30" writes the first name and the age and leaves every other field as before |
| NewCrud.DeleteTwice | new.js:169-173 | deleting a stored user succeeds, after which the user is not found and a second delete throws |
| ScriptCrud.Summaries | script.js:67 | one pair per listed user, in list order: its id with the copy of its summary properties |
| ScriptCrud.DatasetFromList | script.js:64-69 | the keys are exactly the listed ids in order of first occurrence, and a later duplicate overwrites an earlier one |
| ScriptCrud.ScriptUserCrud.constructor | script.js:56-58 | a new manager starts with an empty map |
| ScriptCrud.ScriptUserCrud.CreateUsersDataset | script.js:64-69 | each listed user is set under its id, in list order, as a copy of its summary properties |
| ScriptCrud.ScriptUserCrud.SortUsers | script.js:70-89 | `Views.Sort` over the map's values, without touching the map; an unsupported key throws |
| ScriptCrud.ScriptUserCrud.Search | script.js:90-95 | `Views.Search` over the map's values in insertion order |
| ScriptCrud.ScriptUserCrud.SearchUserById | script.js:96-98 | the stored record for a present id, nothing for an absent one |
| ScriptCrud.ScriptUserCrud.EditUser | script.js:99-104 | a falsy id (0, "" or undefined) or an absent one throws "does not exist"; a truthy, present one throws a TypeError; the map never changes |
| ScriptCrud.ScriptUserCrud.EditUserIntended | script.js:99-104 | under the same guard, the patch is assigned onto the stored record, which then holds every patched value |
| ScriptCrud.ScriptUserCrud.DeleteUser | script.js:106-110 | a present id is removed with the other records untouched; an absent one throws and nothing changes |
| ScriptCrud.EditNeverApplies | script.js:99-104 | editing Amy's first name throws a TypeError and leaves "Amy"; the intended edit stores "Anna" |

## Left out

- The DOM and UI layer is not modelled: building table rows, the buttons and their handlers, the toolbar and
  header listeners, the `state.tableRows` map, and the DOM writes and red outline in `confirm`. The flagged
  column names are returned as data instead of being outlined.
- `APIHandler` and the network are inputs. The fetched list and each detail response are parameters; a
  detail response whose status is not 200 is `Failed` and the request throws 400. A failed listing request
  (`getAllUsers`, new.js:125, script.js:65) also throws 400, before anything is set; the model has no input
  for it, because the listing is a plain parameter. Decoding the JSON body and the
  loading flag and spinner are left out.
- Asynchrony is left out. In script.js the `User` constructor starts `getUserInfoData` without awaiting it
  (script.js:45, script.js:49-52). Its later `Object.assign` of the detail, and its possible rejection, are
  not modelled, so records stay summary copies.
- `localStorage`, `JSON.stringify`/`JSON.parse` and the `init` branching are left out. Storing is `Snapshot`
  and restoring is `GetDataFromLocalStorage`. That pair is exact for numbers, strings and undefined
  properties (which `new User` restores as undefined), but an undefined id used as a key would come back as
  null.
- JsValues.ParseNumber: integers only. Fractions, exponents, hexadecimal, binary and octal literals,
  `Infinity` and floating point are left out. So `isValidCapsule("Infinity")` and `isValidCapsule("0b1")`,
  true in JavaScript, are false here.
- JsValues.Text: writes every digit of an integer, while `n + ''` switches to exponent form ("1e+21") from
  10^21 up.
- JsValues.Lower: lowercases ASCII letters only. This is exact for the gender rule, but a search over
  non-ASCII letters can differ from `toLowerCase`.
- `localeCompare` is left abstract: the parameter `localeLeq` is any total preorder on strings.
- Views.Sort: sortedness is promised only when every record holds a string for a text key, or a numeric
  value for a numeric key. Otherwise `localeCompare` on a non-string throws a TypeError for some
  engine-chosen comparisons, and a NaN difference leaves the order engine-defined. There the model promises
  only a permutation, and does not produce the TypeError.
- NewCrud.UserCrud.SortUsers: weaker in the same way as `Views.Sort`, for the same reason.
- ScriptCrud.ScriptUserCrud.SortUsers: weaker in the same way as `Views.Sort`, for the same reason.
- The tie order among records with equal sort keys is left unspecified. The lemmas claim nothing about it,
  except that sorting a sorted view again keeps it.
- Users.Prop: a name that is not one of the eight record fields reads as undefined here, but in
  JavaScript it can reach a method. That covers the methods of `User.prototype`: `getUserInfoData`,
  `isValidAge`, `isValidCapsule`, `isValidString`, `isValidGender`, `validProperty` and `setProperty`
  (new.js:59-107), and `getUserInfoData` (script.js:48-53). It also covers names inherited from
  `Object.prototype`, such as `constructor`. For those names `user[searchBy] + ''` is the function's
  source text. Properties a detail response carries beyond the eight record fields are not kept, so
  searching by them is not modelled.
- NewCrud.ApplyEdits skips a column outside the eight fields, where `setProperty` would add a new property.
  `confirm` never gets that far, because `validProperty` throws first.

## Findings

| source | as written | input that shows it | evidently intended | confidence | as-written member | corrected member |
|---|---|---|---|---|---|---|
| script.js:101 | `editUser` calls `this.searchUserById(argsmap.id).assign(argsmap)`, but records (script.js:48-53) have no `assign` method | `editUser({id: 1, firstName: "Anna"})` with user 1 stored throws a TypeError and the record keeps "Amy" | `Object.assign(record, argsmap)`, as new.js:165 does | high; not executed | ScriptCrud.ScriptUserCrud.EditUser, ScriptCrud.EditNeverApplies | ScriptCrud.ScriptUserCrud.EditUserIntended |
