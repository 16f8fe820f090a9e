/**
 * ShowReportByCity's computation: the roster grouped by exact City (Enumerable.GroupBy), the groups
 * ordered by key and each group's rows by Name (Enumerable.OrderBy with the default string
 * comparer, here the parameter `keyLe`), each group's subtotal and the grand total.
 */
module Report {
  import opened Wrappers
  import opened Seqs
  import opened Records
  import opened Sorting

  datatype Group = Group(key: string, members: seq<Person>)

  function BalanceOf(p: Person): int {
    p.balance
  }

  function SumBalances(ps: seq<Person>): int {
    SumOf(ps, BalanceOf)
  }

  function GroupTotal(g: Group): int {
    SumBalances(g.members)
  }

  /** The people of one city, in roster order. */
  function InCity(s: seq<Person>, city: string): (r: seq<Person>)
    ensures forall p | p in r :: p in s && p.city == city
  {
    if s == [] then []
    else InCity(s[..|s| - 1], city) + (if s[|s| - 1].city == city then [s[|s| - 1]] else [])
  }

  /** Nobody of the city is missed: each appears as often as the roster lists them. */
  lemma {:induction false} InCityCounts(s: seq<Person>, city: string)
    ensures forall p :: multiset(InCity(s, city))[p] == (if p.city == city then multiset(s)[p] else 0)
  {
    if s != [] {
      InCityCounts(s[..|s| - 1], city);
      assert s == s[..|s| - 1] + [s[|s| - 1]];
    }
  }

  function KeyIs(city: string): Group -> bool {
    (g: Group) => g.key == city
  }

  /** One step of GroupBy: the person joins the group of its city, or opens a new last group. */
  function Place(gs: seq<Group>, p: Person): seq<Group> {
    match First(gs, KeyIs(p.city))
    case Some(i) => gs[i := Group(gs[i].key, gs[i].members + [p])]
    case None => gs + [Group(p.city, [p])]
  }

  /**
   * people.GroupBy(p => p.City): groups in order of first appearance, rows in roster order. The
   * groups' totals add up to the roster's total balance.
   */
  function GroupByCity(s: seq<Person>): (r: seq<Group>)
    ensures SumOf(r, GroupTotal) == SumBalances(s)
  {
    if s == [] then []
    else
      var init, last := s[..|s| - 1], s[|s| - 1];
      PlaceTotal(GroupByCity(init), last);
      SumOfAppend(init, last, BalanceOf);
      assert init + [last] == s;
      Place(GroupByCity(init), last)
  }

  /** Some group has this key. */
  predicate HasKey(gs: seq<Group>, city: string) {
    exists i | 0 <= i < |gs| :: gs[i].key == city
  }

  /** Every group holds exactly the people of its city, keys are distinct and every city has a group. */
  ghost predicate Partition(gs: seq<Group>, s: seq<Person>) {
    && (forall i | 0 <= i < |gs| :: gs[i].members == InCity(s, gs[i].key) && gs[i].members != [])
    && (forall i, j | 0 <= i < j < |gs| :: gs[i].key != gs[j].key)
    && (forall k | 0 <= k < |s| :: HasKey(gs, s[k].city))
  }

  lemma InCityAppend(s: seq<Person>, p: Person, city: string)
    ensures InCity(s + [p], city) == InCity(s, city) + (if p.city == city then [p] else [])
  {
    assert (s + [p])[..|s|] == s;
  }

  lemma PlaceIntoExisting(gs: seq<Group>, s: seq<Person>, p: Person, i: nat)
    requires Partition(gs, s)
    requires i < |gs| && gs[i].key == p.city
    ensures Partition(gs[i := Group(gs[i].key, gs[i].members + [p])], s + [p])
  {
    var s' := s + [p];
    var gs' := gs[i := Group(gs[i].key, gs[i].members + [p])];
    forall j | 0 <= j < |gs'|
      ensures gs'[j].members == InCity(s', gs'[j].key) && gs'[j].members != []
    {
      InCityAppend(s, p, gs[j].key);
    }
    forall k | 0 <= k < |s'|
      ensures HasKey(gs', s'[k].city)
    {
      if k < |s| {
        assert HasKey(gs, s[k].city);
        var j :| 0 <= j < |gs| && gs[j].key == s[k].city;
        assert gs'[j].key == gs[j].key;
      } else {
        assert gs'[i].key == p.city;
      }
    }
  }

  lemma NoGroupNoPeople(gs: seq<Group>, s: seq<Person>, city: string)
    requires Partition(gs, s)
    requires forall i | 0 <= i < |gs| :: gs[i].key != city
    ensures InCity(s, city) == []
  {
    forall k | 0 <= k < |s|
      ensures s[k].city != city
    {
      assert HasKey(gs, s[k].city);
    }
    InCityNone(s, city);
  }

  lemma {:induction false} InCityNone(s: seq<Person>, city: string)
    requires forall k | 0 <= k < |s| :: s[k].city != city
    ensures InCity(s, city) == []
  {
    if s != [] {
      InCityNone(s[..|s| - 1], city);
    }
  }

  lemma PlaceIntoNew(gs: seq<Group>, s: seq<Person>, p: Person)
    requires Partition(gs, s)
    requires forall i | 0 <= i < |gs| :: gs[i].key != p.city
    ensures Partition(gs + [Group(p.city, [p])], s + [p])
  {
    var s' := s + [p];
    var gs' := gs + [Group(p.city, [p])];
    NoGroupNoPeople(gs, s, p.city);
    forall j | 0 <= j < |gs'|
      ensures gs'[j].members == InCity(s', gs'[j].key) && gs'[j].members != []
    {
      InCityAppend(s, p, gs'[j].key);
    }
    forall k | 0 <= k < |s'|
      ensures HasKey(gs', s'[k].city)
    {
      if k < |s| {
        assert HasKey(gs, s[k].city);
        var j :| 0 <= j < |gs| && gs[j].key == s[k].city;
        assert gs'[j].key == gs[j].key;
      } else {
        assert gs'[|gs|].key == p.city;
      }
    }
  }

  lemma PlacePartition(gs: seq<Group>, s: seq<Person>, p: Person)
    requires Partition(gs, s)
    ensures Partition(Place(gs, p), s + [p])
  {
    match First(gs, KeyIs(p.city))
    case Some(i) =>
      PlaceIntoExisting(gs, s, p, i);
    case None =>
      forall i | 0 <= i < |gs|
        ensures gs[i].key != p.city
      {
        assert !KeyIs(p.city)(gs[i]);
      }
      PlaceIntoNew(gs, s, p);
  }

  /** GroupBy(City) partitions the roster: each group holds exactly the people of its city. */
  lemma {:induction false} GroupByPartition(s: seq<Person>)
    ensures Partition(GroupByCity(s), s)
  {
    if s != [] {
      var init, last := s[..|s| - 1], s[|s| - 1];
      assert init + [last] == s;
      GroupByPartition(init);
      GroupByStep(init, last);
    }
  }

  lemma GroupByStep(init: seq<Person>, p: Person)
    requires Partition(GroupByCity(init), init)
    ensures Partition(GroupByCity(init + [p]), init + [p])
  {
    assert (init + [p])[..|init|] == init;
    PlacePartition(GroupByCity(init), init, p);
  }

  lemma PlaceTotal(gs: seq<Group>, p: Person)
    ensures SumOf(Place(gs, p), GroupTotal) == SumOf(gs, GroupTotal) + p.balance
  {
    match First(gs, KeyIs(p.city))
    case Some(i) =>
      SumOfUpdate(gs, i, Group(gs[i].key, gs[i].members + [p]), GroupTotal);
      SumOfAppend(gs[i].members, p, BalanceOf);
    case None =>
      SumOfAppend(gs, Group(p.city, [p]), GroupTotal);
      assert [p][1..] == [];
      assert SumBalances([p]) == p.balance + SumBalances([]);
  }

  /** Rearranging the groups keeps every person's city among the keys. */
  lemma PermutationCovers(gs: seq<Group>, hs: seq<Group>, s: seq<Person>)
    requires multiset(gs) == multiset(hs)
    requires forall k | 0 <= k < |s| :: HasKey(gs, s[k].city)
    ensures forall k | 0 <= k < |s| :: HasKey(hs, s[k].city)
  {
    forall k | 0 <= k < |s|
      ensures HasKey(hs, s[k].city)
    {
      assert HasKey(gs, s[k].city);
      var i :| 0 <= i < |gs| && gs[i].key == s[k].city;
      assert gs[i] in multiset(hs);
      var j :| 0 <= j < |hs| && hs[j] == gs[i];
      assert hs[j].key == s[k].city;
    }
  }

  /** Rearranging the groups keeps them a partition. */
  lemma PartitionPermutation(gs: seq<Group>, hs: seq<Group>, s: seq<Person>)
    requires multiset(gs) == multiset(hs) && Partition(gs, s)
    ensures Partition(hs, s)
  {
    forall i | 0 <= i < |hs|
      ensures hs[i].members == InCity(s, hs[i].key) && hs[i].members != []
    {
      assert hs[i] in multiset(gs);
    }
    assert NoDuplicates(gs);
    NoDuplicatesPermutation(gs, hs);
    PermutationCovers(gs, hs, s);
  }

  /** OrderBy(g => g.Key) compares groups by their keys. */
  function GroupLe(keyLe: (string, string) -> bool): (Group, Group) -> bool {
    (g: Group, h: Group) => keyLe(g.key, h.key)
  }

  /** OrderBy(p => p.Name) compares people by their names. */
  function NameLe(keyLe: (string, string) -> bool): (Person, Person) -> bool {
    (a: Person, b: Person) => keyLe(a.name, b.name)
  }

  lemma ByKeyTotalPreorder(keyLe: (string, string) -> bool)
    requires TotalPreorder(keyLe)
    ensures TotalPreorder(GroupLe(keyLe)) && TotalPreorder(NameLe(keyLe))
  {
    var gl, nl := GroupLe(keyLe), NameLe(keyLe);
    forall g: Group, h: Group
      ensures gl(g, h) || gl(h, g)
    {
      assert keyLe(g.key, h.key) || keyLe(h.key, g.key);
    }
    forall g: Group, h: Group, k: Group | gl(g, h) && gl(h, k)
      ensures gl(g, k)
    {
      assert keyLe(g.key, h.key) && keyLe(h.key, k.key);
    }
    forall a: Person, b: Person
      ensures nl(a, b) || nl(b, a)
    {
      assert keyLe(a.name, b.name) || keyLe(b.name, a.name);
    }
    forall a: Person, b: Person, c: Person | nl(a, b) && nl(b, c)
      ensures nl(a, c)
    {
      assert keyLe(a.name, b.name) && keyLe(b.name, c.name);
    }
  }

  /** One city's block of the report: the city, its rows by name, its subtotal. */
  datatype Section = Section(city: string, rows: seq<Person>, subtotal: int)

  datatype CityReport = CityReport(sections: seq<Section>, grandTotal: int)

  /** people.GroupBy(p => p.City).OrderBy(g => g.Key) */
  function OrderedGroups(people: seq<Person>, keyLe: (string, string) -> bool): seq<Group> {
    SortBy(GroupByCity(people), GroupLe(keyLe))
  }

  /** cityGroup.OrderBy(p => p.Name) and cityGroup.Sum(p => p.Balance) */
  function SectionOf(g: Group, keyLe: (string, string) -> bool): Section {
    Section(g.key, SortBy(g.members, NameLe(keyLe)), GroupTotal(g))
  }

  function SubtotalOf(x: Section): int {
    x.subtotal
  }

  function Sections(people: seq<Person>, keyLe: (string, string) -> bool): seq<Section> {
    var gs := OrderedGroups(people, keyLe);
    seq(|gs|, i requires 0 <= i < |gs| => SectionOf(gs[i], keyLe))
  }

  /**
   * The report: its sections and the grand total accumulated over their subtotals, which is the
   * sum of every balance in the roster however the groups fall.
   */
  function ReportByCity(people: seq<Person>, keyLe: (string, string) -> bool): (r: CityReport)
    ensures r.grandTotal == SumBalances(people)
  {
    var gs := OrderedGroups(people, keyLe);
    var ss := Sections(people, keyLe);
    SumOfPointwise(ss, SubtotalOf, gs, GroupTotal);
    SumOfSortBy(GroupByCity(people), GroupLe(keyLe), GroupTotal);
    CityReport(ss, SumOf(ss, SubtotalOf))
  }

  lemma OrderedGroupsPartition(people: seq<Person>, keyLe: (string, string) -> bool)
    ensures Partition(OrderedGroups(people, keyLe), people)
  {
    GroupByPartition(people);
    PartitionPermutation(GroupByCity(people), OrderedGroups(people, keyLe), people);
  }

  /** Each section lists exactly the people of its city, and its subtotal is their balance sum. */
  lemma ReportSectionsExact(people: seq<Person>, keyLe: (string, string) -> bool)
    ensures forall x | x in ReportByCity(people, keyLe).sections ::
      && multiset(x.rows) == multiset(InCity(people, x.city))
      && x.rows != []
      && x.subtotal == SumBalances(InCity(people, x.city))
  {
    OrderedGroupsPartition(people, keyLe);
  }

  /** Every person's city heads exactly one section. */
  lemma ReportCitiesOnce(people: seq<Person>, keyLe: (string, string) -> bool)
    ensures forall p | p in people :: exists i | 0 <= i < |ReportByCity(people, keyLe).sections| ::
      ReportByCity(people, keyLe).sections[i].city == p.city
    ensures forall i, j | 0 <= i < j < |ReportByCity(people, keyLe).sections| ::
      ReportByCity(people, keyLe).sections[i].city != ReportByCity(people, keyLe).sections[j].city
  {
    var gs := OrderedGroups(people, keyLe);
    var ss := ReportByCity(people, keyLe).sections;
    OrderedGroupsPartition(people, keyLe);
    forall p | p in people
      ensures exists i | 0 <= i < |ss| :: ss[i].city == p.city
    {
      var k :| 0 <= k < |people| && people[k] == p;
      var i :| 0 <= i < |gs| && gs[i].key == people[k].city;
      assert ss[i].city == gs[i].key;
    }
  }

  /** With a consistent string order, sections come by city and rows by name. */
  lemma ReportOrdered(people: seq<Person>, keyLe: (string, string) -> bool)
    requires TotalPreorder(keyLe)
    ensures forall i, j | 0 <= i < j < |ReportByCity(people, keyLe).sections| ::
      keyLe(ReportByCity(people, keyLe).sections[i].city, ReportByCity(people, keyLe).sections[j].city)
    ensures forall x | x in ReportByCity(people, keyLe).sections :: SortedBy(x.rows, NameLe(keyLe))
  {
    var gs := OrderedGroups(people, keyLe);
    var ss := ReportByCity(people, keyLe).sections;
    ByKeyTotalPreorder(keyLe);
    SortBySorted(GroupByCity(people), GroupLe(keyLe));
    forall i, j | 0 <= i < j < |ss|
      ensures keyLe(ss[i].city, ss[j].city)
    {
      assert GroupLe(keyLe)(gs[i], gs[j]);
    }
    forall x | x in ss
      ensures SortedBy(x.rows, NameLe(keyLe))
    {
      var i :| 0 <= i < |ss| && ss[i] == x;
      SortBySorted(gs[i].members, NameLe(keyLe));
    }
  }

  /** ShowReportByCity's foreach loop: one section per ordered group, the grand total accumulated. */
  method PrintReport(people: seq<Person>, keyLe: (string, string) -> bool) returns (report: CityReport)
    ensures report == ReportByCity(people, keyLe)
  {
    var groups := OrderedGroups(people, keyLe);
    var sections: seq<Section> := [];
    var total := 0;
    for i := 0 to |groups|
      invariant SectionsSoFar(groups, keyLe, sections, i)
      invariant total == SumOf(sections, SubtotalOf)
    {
      var section := SectionOf(groups[i], keyLe);
      SumOfAppend(sections, section, SubtotalOf);
      SectionsSoFarStep(groups, keyLe, sections, i);
      total := total + section.subtotal;
      sections := sections + [section];
    }
    SectionsSoFarAll(people, keyLe, sections);
    report := CityReport(sections, total);
  }

  /** The first i sections of the report over these groups. */
  ghost predicate SectionsSoFar(groups: seq<Group>, keyLe: (string, string) -> bool, sections: seq<Section>, i: nat) {
    && |sections| == i <= |groups|
    && forall j | 0 <= j < i :: sections[j] == SectionOf(groups[j], keyLe)
  }

  lemma SectionsSoFarStep(groups: seq<Group>, keyLe: (string, string) -> bool, sections: seq<Section>, i: nat)
    requires SectionsSoFar(groups, keyLe, sections, i) && i < |groups|
    ensures SectionsSoFar(groups, keyLe, sections + [SectionOf(groups[i], keyLe)], i + 1)
  {
  }

  lemma SectionsSoFarAll(people: seq<Person>, keyLe: (string, string) -> bool, sections: seq<Section>)
    requires SectionsSoFar(OrderedGroups(people, keyLe), keyLe, sections, |OrderedGroups(people, keyLe)|)
    ensures sections == Sections(people, keyLe)
  {
  }
}
