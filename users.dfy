/** The user record (`User` in new.js and script.js): eight properties addressed
    by name, and `Object.assign`. */
module Users {
  import opened Wrappers
  import opened JsValues

  datatype Field = Id | FirstName | LastName | Capsule | Age | Hobby | City | Gender

  /** A `User` object. A property the record was never given reads as `Undefined`. */
  datatype User = User(id: Value, firstName: Value, lastName: Value, capsule: Value,
                       age: Value, hobby: Value, city: Value, gender: Value)

  /** The own properties of a plain object handed to `Object.assign`. */
  type Patch = map<Field, Value>

  /** The exceptions the dataset manager throws. */
  datatype Error =
    | NoSuchProperty(property: string)   // validProperty on an unknown name
    | CannotSortBy(sortBy: string)       // sortUsers on an unsupported key
    | UserDoesNotExist(id: Value)        // editUser / deleteUser on a missing id
    | HttpStatus(code: int)              // the value thrown by a failed fetch
    | TypeError                          // a property read on undefined, or a call of a missing method

  function Name(f: Field): string {
    match f
    case Id => "id"
    case FirstName => "firstName"
    case LastName => "lastName"
    case Capsule => "capsule"
    case Age => "age"
    case Hobby => "hobby"
    case City => "city"
    case Gender => "gender"
  }

  /** The field a property name denotes, if any. */
  function FieldNamed(name: string): (r: Option<Field>)
    ensures r.Some? ==> Name(r.value) == name
  {
    if name == "id" then Some(Id)
    else if name == "firstName" then Some(FirstName)
    else if name == "lastName" then Some(LastName)
    else if name == "capsule" then Some(Capsule)
    else if name == "age" then Some(Age)
    else if name == "hobby" then Some(Hobby)
    else if name == "city" then Some(City)
    else if name == "gender" then Some(Gender)
    else None
  }

  /** Property names and fields correspond one to one. */
  lemma FieldNamedName(f: Field)
    ensures FieldNamed(Name(f)) == Some(f)
  {
  }

  /** `u[field]` */
  function Get(u: User, f: Field): Value {
    match f
    case Id => u.id
    case FirstName => u.firstName
    case LastName => u.lastName
    case Capsule => u.capsule
    case Age => u.age
    case Hobby => u.hobby
    case City => u.city
    case Gender => u.gender
  }

  /** `u[field] = v`: that property changes and no other. */
  function Put(u: User, f: Field, v: Value): (r: User)
    ensures Get(r, f) == v
    ensures forall g :: g != f ==> Get(r, g) == Get(u, g)
  {
    match f
    case Id => u.(id := v)
    case FirstName => u.(firstName := v)
    case LastName => u.(lastName := v)
    case Capsule => u.(capsule := v)
    case Age => u.(age := v)
    case Hobby => u.(hobby := v)
    case City => u.(city := v)
    case Gender => u.(gender := v)
  }

  /** `u[name]` for an arbitrary property name: a property's own name reads that
      property, and a name that is not one of the eight reads as `undefined`. */
  function Prop(u: User, name: string): (r: Value)
    ensures forall f :: name == Name(f) ==> r == Get(u, f)
    ensures FieldNamed(name).None? ==> r == Undefined
  {
    forall f | name == Name(f) ensures FieldNamed(name) == Some(f) {
      FieldNamedName(f);
    }
    match FieldNamed(name)
    case Some(f) => Get(u, f)
    case None => Undefined
  }

  /** Two records that agree on every property are the same record. */
  lemma Extensionality(u: User, w: User)
    requires forall f :: Get(u, f) == Get(w, f)
    ensures u == w
  {
    assert Get(u, Id) == Get(w, Id) && Get(u, FirstName) == Get(w, FirstName);
    assert Get(u, LastName) == Get(w, LastName) && Get(u, Capsule) == Get(w, Capsule);
    assert Get(u, Age) == Get(w, Age) && Get(u, Hobby) == Get(w, Hobby);
    assert Get(u, City) == Get(w, City) && Get(u, Gender) == Get(w, Gender);
  }

  function Pick(p: Patch, f: Field, current: Value): Value {
    if f in p then p[f] else current
  }

  /** `Object.assign(u, p)`: every property `p` has overwrites `u`'s, the rest stay. */
  function Assign(u: User, p: Patch): (r: User)
    ensures forall f :: Get(r, f) == if f in p then p[f] else Get(u, f)
  {
    User(Pick(p, Id, u.id), Pick(p, FirstName, u.firstName), Pick(p, LastName, u.lastName),
         Pick(p, Capsule, u.capsule), Pick(p, Age, u.age), Pick(p, Hobby, u.hobby),
         Pick(p, City, u.city), Pick(p, Gender, u.gender))
  }

  /** A `User` object as the source of `Object.assign`: its constructor gives it all
      eight properties as own properties, even those it sets to `undefined`. */
  function AsPatch(u: User): (p: Patch)
    ensures forall f :: f in p && p[f] == Get(u, f)
  {
    map f: Field | true :: Get(u, f)
  }

  /** Assigning a record onto a record makes it a copy of the source; onto itself,
      this changes nothing. */
  lemma AssignWhole(u: User, w: User)
    ensures Assign(u, AsPatch(w)) == w
  {
    Extensionality(Assign(u, AsPatch(w)), w);
  }

  /** `new User(user)` in script.js: only id, firstName, lastName and capsule are
      copied; the details arrive later. */
  function SummaryCopy(u: User): (r: User)
    ensures forall f :: Get(r, f) == if f in {Id, FirstName, LastName, Capsule} then Get(u, f) else Undefined
  {
    User(u.id, u.firstName, u.lastName, u.capsule, Undefined, Undefined, Undefined, Undefined)
  }

  /** The shape of a record the validators accept: text fields hold strings,
      age and capsule are numeric, the id is a number. */
  ghost predicate WellTyped(u: User) {
    && u.id.Num?
    && u.firstName.Str? && u.lastName.Str? && u.hobby.Str? && u.city.Str? && u.gender.Str?
    && ToNumber(u.age).Some? && ToNumber(u.capsule).Some?
  }
}
