/** The person records of the roster. */
module People {

  /** One roster record, with the fields the roster file carries for each person. */
  datatype Person = Person(
    id: int,
    firstName: string,
    lastName: string,
    email: string,
    gender: string,
    domain: string,
    available: bool,
    avatar: string)

  /** The text the name search runs against: first name, one space, last name. */
  function FullName(p: Person): string
  {
    p.firstName + " " + p.lastName
  }

  /** Some record of `s` carries identifier `id` (the `some(user => user.id === id)` test). */
  predicate HasId(s: seq<Person>, id: int)
  {
    exists k :: 0 <= k < |s| && s[k].id == id
  }

  /** No two records of `s` share an identifier. */
  predicate UniqueIds(s: seq<Person>)
  {
    forall i, j :: 0 <= i < j < |s| ==> s[i].id != s[j].id
  }
}
