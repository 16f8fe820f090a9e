/**
 * The comparison SortData hands to List.Sort: Balance numerically, LastName or Name ordinally
 * ignoring case, the sign flipped for descending order.
 */
module PersonOrder {
  import opened Text
  import opened Seqs
  import opened Records
  import opened Sorting

  datatype Field = ByName | ByLastName | ByBalance
  datatype Direction = Ascending | Descending
  datatype SortKey = SortKey(field: Field, direction: Direction)

  /** The "what to order" menu: 2 is Balance, 1 is Last name, any other accepted answer (0) is Name. */
  function FieldOf(order: int): Field {
    if order == 2 then ByBalance else if order == 1 then ByLastName else ByName
  }

  /** The "way to order" menu: 0 is ascending, any other accepted answer (1) descending. */
  function DirectionOf(way: int): Direction {
    if way == 0 then Ascending else Descending
  }

  /** decimal.CompareTo, as its sign. */
  function CompareNumbers(a: int, b: int): (r: int)
    ensures r < 0 <==> a < b
    ensures r == 0 <==> a == b
    ensures r > 0 <==> a > b
  {
    if a < b then -1 else if a > b then 1 else 0
  }

  /** The two people agree on the sort field; names are compared ignoring case. */
  predicate Ties(field: Field, a: Person, b: Person) {
    match field
    case ByBalance => a.balance == b.balance
    case ByLastName => EqualsIgnoreCase(a.lastName, b.lastName)
    case ByName => EqualsIgnoreCase(a.name, b.name)
  }

  /**
   * The comparer lambda of SortData: zero exactly for a tie on the field; by balance, negative
   * exactly when a's balance is the smaller one (the larger one in descending order).
   */
  function Compare(key: SortKey, a: Person, b: Person): (r: int)
    ensures -1 <= r <= 1
    ensures r == 0 <==> Ties(key.field, a, b)
    ensures key.field == ByBalance ==>
      (r < 0 <==> if key.direction == Ascending then a.balance < b.balance else a.balance > b.balance)
  {
    var cmp :=
      match key.field
      case ByBalance => CompareNumbers(a.balance, b.balance)
      case ByLastName => CompareIgnoreCase(a.lastName, b.lastName)
      case ByName => CompareIgnoreCase(a.name, b.name);
    if key.direction == Ascending then cmp else -cmp
  }

  /** "a may stay before b" under the comparer. */
  function PersonLe(key: SortKey): (Person, Person) -> bool {
    (a: Person, b: Person) => Compare(key, a, b) <= 0
  }

  lemma CompareAntisymmetric(key: SortKey, a: Person, b: Person)
    ensures Compare(key, a, b) == -Compare(key, b, a)
  {
    LexCompareAntisymmetric(FoldCase(a.name), FoldCase(b.name));
    LexCompareAntisymmetric(FoldCase(a.lastName), FoldCase(b.lastName));
  }

  lemma CompareTransitive(key: SortKey, a: Person, b: Person, c: Person)
    requires Compare(key, a, b) <= 0 && Compare(key, b, c) <= 0
    ensures Compare(key, a, c) <= 0
  {
    var asc := SortKey(key.field, Ascending);
    var (x, y, z) := if key.direction == Ascending then (a, b, c) else (c, b, a);
    CompareAntisymmetric(asc, a, b);
    CompareAntisymmetric(asc, b, c);
    CompareAntisymmetric(asc, a, c);
    assert Compare(asc, x, y) <= 0 && Compare(asc, y, z) <= 0;
    match key.field
    case ByBalance =>
    case ByLastName => LexCompareTransitive(FoldCase(x.lastName), FoldCase(y.lastName), FoldCase(z.lastName));
    case ByName => LexCompareTransitive(FoldCase(x.name), FoldCase(y.name), FoldCase(z.name));
  }

  /** The comparer is consistent, so List.Sort can order by it. */
  lemma PersonLeTotalPreorder(key: SortKey)
    ensures TotalPreorder(PersonLe(key))
  {
    var le := PersonLe(key);
    forall a, b
      ensures le(a, b) || le(b, a)
    {
      CompareAntisymmetric(key, a, b);
    }
    forall a, b, c | le(a, b) && le(b, c)
      ensures le(a, c)
    {
      CompareTransitive(key, a, b, c);
    }
  }

  /** Descending order on a field is ascending order read backwards. */
  lemma DescendingReversesAscending(s: seq<Person>, field: Field)
    requires SortedBy(s, PersonLe(SortKey(field, Ascending)))
    ensures SortedBy(Reverse(s), PersonLe(SortKey(field, Descending)))
  {
    var r := Reverse(s);
    forall i, j | 0 <= i < j < |r|
      ensures PersonLe(SortKey(field, Descending))(r[i], r[j])
    {
      assert PersonLe(SortKey(field, Ascending))(s[|s| - 1 - j], s[|s| - 1 - i]);
      CompareAntisymmetric(SortKey(field, Ascending), r[i], r[j]);
    }
  }
}
