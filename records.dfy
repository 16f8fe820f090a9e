/**
 * The two record shapes (PlainFiles.Core/Person.cs and User.cs) and the field rules the program
 * enforces when it adds or edits a person.
 */
module Records {
  import opened Wrappers
  import opened Text
  import opened Seqs

  /** One roster entry; the decimal Balance is modelled as an integer. */
  datatype Person = Person(id: int, name: string, lastName: string, phone: string, city: string, balance: int)

  /** One credential; IsActive defaults to false in the source. */
  datatype User = User(username: string, password: string, isActive: bool)

  /** Name and LastName are required: not null, empty or white space only. */
  predicate ValidName(s: string) {
    !IsBlank(s)
  }

  predicate ValidPhone(s: string) {
    MatchesSevenDigits(s)
  }

  predicate ValidBalance(b: int) {
    b >= 0
  }

  /** The record a successful AddPerson builds satisfies every field rule. */
  predicate WellFormed(p: Person) {
    ValidName(p.name) && ValidName(p.lastName) && ValidPhone(p.phone) && ValidBalance(p.balance)
  }

  /** people.Any(p => p.Id == id) */
  predicate HasId(ps: seq<Person>, id: int) {
    exists i | 0 <= i < |ps| :: ps[i].id == id
  }

  predicate IdsUnique(ps: seq<Person>) {
    forall i, j | 0 <= i < j < |ps| :: ps[i].id != ps[j].id
  }

  /** Rearranging a roster with unique ids keeps them unique. */
  lemma IdsUniquePermutation(a: seq<Person>, b: seq<Person>)
    requires multiset(a) == multiset(b) && IdsUnique(a)
    ensures IdsUnique(b)
  {
    forall i, j | 0 <= i < j < |b|
      ensures b[i].id != b[j].id
    {
      if b[i] == b[j] {
        assert NoDuplicates(a);
        DuplicateCount(b, i, j);
        NoDuplicatesCount(a, b[i]);
      } else {
        assert b[i] in multiset(a) && b[j] in multiset(a);
        var k :| 0 <= k < |a| && a[k] == b[i];
        var l :| 0 <= l < |a| && a[l] == b[j];
        assert a[k].id != a[l].id;
      }
    }
  }

  function WithId(id: int): Person -> bool {
    (p: Person) => p.id == id
  }

  /** people.FirstOrDefault(p => p.Id == id), as a position. */
  function IndexOfId(ps: seq<Person>, id: int): (r: Option<nat>)
    ensures r.Some? ==> r.value < |ps| && ps[r.value].id == id
    ensures r.Some? ==> forall j | 0 <= j < r.value :: ps[j].id != id
    ensures r.None? <==> !HasId(ps, id)
  {
    First(ps, WithId(id))
  }
}
