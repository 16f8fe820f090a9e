/**
 * The console program's state and its menu operations. The static roster `people`, the name of
 * the logged-in user and the log file become the fields of a Session; each operation reads its
 * console answers from sequences and changes the fields as the program does.
 */
module Program {
  import opened Wrappers
  import opened Text
  import opened Seqs
  import opened Records
  import opened Prompts
  import opened Sorting
  import opened PersonOrder
  import opened Report
  import opened Persistence
  import opened Login

  /** What a log line reports. */
  datatype Event =
    | PersonAdded(id: int, name: string)
    | PersonDeleted(id: int, name: string)
    | PersonEdited(id: int, name: string)
    | ReportGenerated
    | FileSaved(fileName: string)

  /** One WriteLog call: who, the level, what happened (the time stamp is not modelled). */
  datatype LogEntry = LogEntry(user: string, level: string, event: Event)

  /** LoggedInUser ?? "SYSTEM" */
  function ActorOf(loggedIn: Option<string>): string {
    if loggedIn.Some? then loggedIn.value else "SYSTEM"
  }

  // ---------------------------------------------------------------- AddPerson

  /** The answers typed at AddPerson's prompts; an id or balance is its TryParse result. */
  datatype AddAnswers = AddAnswers(
    ids: seq<Option<int>>,
    names: seq<string>,
    lastNames: seq<string>,
    phones: seq<string>,
    city: string,
    balances: seq<Option<int>>)

  /** The id loop accepts a number that no one in the roster has. */
  function FreshId(people: seq<Person>): Option<int> -> bool {
    (a: Option<int>) => a.Some? && !HasId(people, a.value)
  }

  predicate BalanceAccepted(a: Option<int>) {
    a.Some? && ValidBalance(a.value)
  }

  /**
   * The record AddPerson appends, built from the first accepted answer at each prompt; none while
   * some prompt has not yet had an accepted answer.
   */
  function NewPerson(people: seq<Person>, ans: AddAnswers): (r: Option<Person>)
    ensures r.Some? <==>
      && (exists i | 0 <= i < |ans.ids| :: ans.ids[i].Some? && !HasId(people, ans.ids[i].value))
      && (exists i | 0 <= i < |ans.names| :: ValidName(ans.names[i]))
      && (exists i | 0 <= i < |ans.lastNames| :: ValidName(ans.lastNames[i]))
      && (exists i | 0 <= i < |ans.phones| :: ValidPhone(ans.phones[i]))
      && (exists i | 0 <= i < |ans.balances| :: BalanceAccepted(ans.balances[i]))
    ensures r.Some? ==> WellFormed(r.value) && !HasId(people, r.value.id) && r.value.city == ans.city
    ensures r.Some? ==>
      && (exists i: nat :: FirstAccepted(ans.ids, FreshId(people), i) && ans.ids[i] == Some(r.value.id))
      && (exists i: nat :: FirstAccepted(ans.names, ValidName, i) && ans.names[i] == r.value.name)
      && (exists i: nat :: FirstAccepted(ans.lastNames, ValidName, i) && ans.lastNames[i] == r.value.lastName)
      && (exists i: nat :: FirstAccepted(ans.phones, ValidPhone, i) && ans.phones[i] == r.value.phone)
      && (exists i: nat :: FirstAccepted(ans.balances, BalanceAccepted, i) && ans.balances[i] == Some(r.value.balance))
  {
    var i := First(ans.ids, FreshId(people));
    var n := First(ans.names, ValidName);
    var l := First(ans.lastNames, ValidName);
    var ph := First(ans.phones, ValidPhone);
    var b := First(ans.balances, BalanceAccepted);
    if i.Some? && n.Some? && l.Some? && ph.Some? && b.Some? then
      assert FirstAccepted(ans.ids, FreshId(people), i.value);
      assert FirstAccepted(ans.names, ValidName, n.value);
      assert FirstAccepted(ans.lastNames, ValidName, l.value);
      assert FirstAccepted(ans.phones, ValidPhone, ph.value);
      assert FirstAccepted(ans.balances, BalanceAccepted, b.value);
      Some(Person(ans.ids[i.value].value, ans.names[n.value], ans.lastNames[l.value],
                  ans.phones[ph.value], ans.city, ans.balances[b.value].value))
    else
      assert i.None? ==> forall j | 0 <= j < |ans.ids| :: !FreshId(people)(ans.ids[j]);
      None
  }

  /** Adding keeps the ids unique and leaves every earlier record where it was. */
  lemma AddKeepsIdsUnique(people: seq<Person>, ans: AddAnswers)
    requires IdsUnique(people) && NewPerson(people, ans).Some?
    ensures var after := people + [NewPerson(people, ans).value];
      IdsUnique(after) && after[..|people|] == people && HasId(after, NewPerson(people, ans).value.id)
  {
    var p := NewPerson(people, ans).value;
    var after := people + [p];
    assert after[|people|] == p;
  }

  // ---------------------------------------------------------------- DeletePerson

  /** Console.ReadLine()?.ToUpper() == "Y" */
  predicate Confirmed(answer: string) {
    FoldCase(answer) == "Y"
  }

  lemma ConfirmedIff(answer: string)
    ensures Confirmed(answer) <==> answer == "Y" || answer == "y"
  {
    if Confirmed(answer) {
      assert |answer| == 1;
      assert FoldCase(answer)[0] == ToUpperAscii(answer[0]) == 'Y';
      assert answer == [answer[0]];
    }
    if answer == "y" || answer == "Y" {
      assert FoldCase(answer) == [ToUpperAscii(answer[0])];
    }
  }

  function RemoveAt(s: seq<Person>, k: nat): seq<Person>
    requires k < |s|
  {
    s[..k] + s[k + 1..]
  }

  /**
   * The roster after DeletePerson: nothing is added and at most one record goes, and only when a
   * numeric id that is present was confirmed.
   */
  function AfterDelete(people: seq<Person>, idAnswer: Option<int>, confirmation: string): (r: seq<Person>)
    ensures |people| - 1 <= |r| <= |people| && multiset(r) <= multiset(people)
    ensures r != people ==> idAnswer.Some? && HasId(people, idAnswer.value) && Confirmed(confirmation)
  {
    if idAnswer.None? then people
    else match IndexOfId(people, idAnswer.value)
      case None => people
      case Some(k) =>
        if Confirmed(confirmation) then
          assert people == people[..k] + [people[k]] + people[k + 1..];
          RemoveAt(people, k)
        else people
  }

  /**
   * A non-numeric id, an absent id or an answer other than Y leaves the roster as it was;
   * otherwise exactly the first record with the id goes, and the others keep their order.
   */
  lemma DeleteMeaning(people: seq<Person>, idAnswer: Option<int>, confirmation: string)
    ensures var after := AfterDelete(people, idAnswer, confirmation);
      && (idAnswer.None? || !HasId(people, idAnswer.value) || !Confirmed(confirmation) ==> after == people)
      && (idAnswer.Some? && HasId(people, idAnswer.value) && Confirmed(confirmation) ==>
            exists k | 0 <= k < |people| ::
              && people[k].id == idAnswer.value
              && (forall j | 0 <= j < k :: people[j].id != idAnswer.value)
              && after == people[..k] + people[k + 1..]
              && multiset(after) + multiset{people[k]} == multiset(people))
  {
    if idAnswer.Some? && HasId(people, idAnswer.value) && Confirmed(confirmation) {
      var k := IndexOfId(people, idAnswer.value).value;
      assert people == people[..k] + [people[k]] + people[k + 1..];
    }
  }

  /** With unique ids, a delete keeps them unique and removes the id altogether. */
  lemma DeleteKeepsIdsUnique(people: seq<Person>, idAnswer: Option<int>, confirmation: string)
    requires IdsUnique(people)
    ensures var after := AfterDelete(people, idAnswer, confirmation);
      && IdsUnique(after)
      && (idAnswer.Some? && Confirmed(confirmation) ==> !HasId(after, idAnswer.value))
  {
    var after := AfterDelete(people, idAnswer, confirmation);
    if idAnswer.Some? && HasId(people, idAnswer.value) && Confirmed(confirmation) {
      var k := IndexOfId(people, idAnswer.value).value;
      assert after == RemoveAt(people, k);
      RemoveAtShifts(people, k);
    }
  }

  /** Removing the record at k keeps the others, in order, one place down after k. */
  lemma RemoveAtShifts(people: seq<Person>, k: nat)
    requires k < |people| && IdsUnique(people)
    ensures IdsUnique(RemoveAt(people, k))
    ensures !HasId(RemoveAt(people, k), people[k].id)
  {
    var after := RemoveAt(people, k);
    forall i | 0 <= i < |after|
      ensures after[i] == people[if i < k then i else i + 1]
    {
    }
  }

  // ---------------------------------------------------------------- EditPerson

  /** A balance answer: the text typed and its decimal.TryParse result. */
  datatype BalanceAnswer = BalanceAnswer(text: string, value: Option<int>)

  /** The answers typed at EditPerson's prompts after the id. */
  datatype EditAnswers = EditAnswers(
    name: string,
    lastName: string,
    phones: seq<string>,
    city: string,
    balances: seq<BalanceAnswer>)

  /** A blank answer keeps the current value; anything else replaces it as typed. */
  function KeepIfBlank(current: string, answer: string): string {
    if IsBlank(answer) then current else answer
  }

  /** The phone loop ends on a blank answer or a valid phone. */
  predicate PhoneAnswerOk(a: string) {
    IsBlank(a) || ValidPhone(a)
  }

  /** The balance loop ends on a blank answer or a number that is not negative. */
  predicate BalanceAnswerOk(a: BalanceAnswer) {
    IsBlank(a.text) || BalanceAccepted(a.value)
  }

  /** The edited record, and whether every prompt was answered acceptably. */
  datatype EditResult = EditResult(person: Person, finished: bool)

  /**
   * The record after EditPerson's prompts. Name and LastName are assigned before the phone loop,
   * Phone and City before the balance loop, so a loop still waiting leaves the earlier fields
   * already changed.
   */
  function EditRecord(p: Person, ans: EditAnswers): (r: EditResult)
    ensures r.person.id == p.id
    ensures r.finished <==>
      && (exists i | 0 <= i < |ans.phones| :: PhoneAnswerOk(ans.phones[i]))
      && (exists j | 0 <= j < |ans.balances| :: BalanceAnswerOk(ans.balances[j]))
  {
    var named := p.(name := KeepIfBlank(p.name, ans.name), lastName := KeepIfBlank(p.lastName, ans.lastName));
    match First(ans.phones, PhoneAnswerOk)
    case None => EditResult(named, false)
    case Some(i) =>
      var phoned := if IsBlank(ans.phones[i]) then named else named.(phone := ans.phones[i]);
      var placed := phoned.(city := KeepIfBlank(p.city, ans.city));
      match First(ans.balances, BalanceAnswerOk)
      case None => EditResult(placed, false)
      case Some(j) =>
        var b := ans.balances[j];
        EditResult(if IsBlank(b.text) then placed else placed.(balance := b.value.value), true)
  }

  /**
   * Editing never changes the id; Name and LastName take a non-blank answer as typed and otherwise
   * stay. Once the phone loop stops at its first acceptable answer, Phone takes that answer unless
   * it is blank and City takes a non-blank answer; once the balance loop stops at its first
   * acceptable answer, Balance takes its value unless the text is blank. A loop with no acceptable
   * answer changes nothing it would have set.
   */
  lemma EditRecordFields(p: Person, ans: EditAnswers)
    ensures var q := EditRecord(p, ans).person;
      && q.id == p.id
      && q.name == (if IsBlank(ans.name) then p.name else ans.name)
      && q.lastName == (if IsBlank(ans.lastName) then p.lastName else ans.lastName)
      && (q.phone == p.phone || (ValidPhone(q.phone) && q.phone in ans.phones))
      && (q.balance == p.balance || ValidBalance(q.balance))
    ensures var q := EditRecord(p, ans).person;
      forall i: nat | FirstAccepted(ans.phones, PhoneAnswerOk, i) ::
        && q.phone == (if IsBlank(ans.phones[i]) then p.phone else ans.phones[i])
        && q.city == (if IsBlank(ans.city) then p.city else ans.city)
    ensures var q := EditRecord(p, ans).person;
      forall i: nat, j: nat | FirstAccepted(ans.phones, PhoneAnswerOk, i) && FirstAccepted(ans.balances, BalanceAnswerOk, j) ::
        q.balance == (if IsBlank(ans.balances[j].text) then p.balance else ans.balances[j].value.value)
    ensures var q := EditRecord(p, ans).person;
      (forall j | 0 <= j < |ans.balances| :: !BalanceAnswerOk(ans.balances[j])) ==> q.balance == p.balance
  {
    var ph := First(ans.phones, PhoneAnswerOk);
    if ph.Some? && !IsBlank(ans.phones[ph.value]) {
      assert ValidPhone(ans.phones[ph.value]) && ans.phones[ph.value] in ans.phones;
    }
    forall i: nat | FirstAccepted(ans.phones, PhoneAnswerOk, i) {
      FirstAcceptedIsFirst(ans.phones, PhoneAnswerOk, i);
    }
    forall j: nat | FirstAccepted(ans.balances, BalanceAnswerOk, j) {
      FirstAcceptedIsFirst(ans.balances, BalanceAnswerOk, j);
    }
  }

  /** While the phone loop is still waiting only Name and LastName have changed. */
  lemma EditRecordProgress(p: Person, ans: EditAnswers)
    ensures var r := EditRecord(p, ans);
      (forall i | 0 <= i < |ans.phones| :: !PhoneAnswerOk(ans.phones[i])) ==>
        r.person == p.(name := r.person.name, lastName := r.person.lastName)
  {
  }

  /**
   * EditPerson's prompts applied one by one to the record being edited (the roster's own object,
   * whose place in the list the caller overwrites with the result).
   */
  method EditFields(person: Person, ans: EditAnswers) returns (r: EditResult)
    ensures r == EditRecord(person, ans)
  {
    var p := person;
    if !IsBlank(ans.name) {
      p := p.(name := ans.name);
    }
    if !IsBlank(ans.lastName) {
      p := p.(lastName := ans.lastName);
    }
    var ph := ReadUntil(ans.phones, PhoneAnswerOk);
    if ph.None? {
      return EditResult(p, false);
    }
    if !IsBlank(ans.phones[ph.value]) {
      p := p.(phone := ans.phones[ph.value]);
    }
    if !IsBlank(ans.city) {
      p := p.(city := ans.city);
    }
    var b := ReadUntil(ans.balances, BalanceAnswerOk);
    if b.None? {
      return EditResult(p, false);
    }
    if !IsBlank(ans.balances[b.value].text) {
      p := p.(balance := ans.balances[b.value].value.value);
    }
    return EditResult(p, true);
  }

  /** The checks on the answers keep a well-formed record well-formed. */
  lemma EditKeepsWellFormed(p: Person, ans: EditAnswers)
    requires WellFormed(p)
    ensures WellFormed(EditRecord(p, ans).person)
  {
    EditRecordFields(p, ans);
    var q := EditRecord(p, ans).person;
    assert ValidName(q.name) && ValidName(q.lastName);
  }

  /** Blank answers everywhere change nothing. */
  lemma EditBlankKeeps(p: Person, ans: EditAnswers)
    requires IsBlank(ans.name) && IsBlank(ans.lastName) && IsBlank(ans.city)
    requires ans.phones != [] && IsBlank(ans.phones[0])
    requires ans.balances != [] && IsBlank(ans.balances[0].text)
    ensures EditRecord(p, ans) == EditResult(p, true)
  {
    assert PhoneAnswerOk(ans.phones[0]);
    assert BalanceAnswerOk(ans.balances[0]);
  }

  /** Editing one record in place keeps the roster's ids unique. */
  lemma EditKeepsIdsUnique(people: seq<Person>, k: nat, ans: EditAnswers)
    requires IdsUnique(people) && k < |people|
    ensures IdsUnique(people[k := EditRecord(people[k], ans).person])
  {
    var after := people[k := EditRecord(people[k], ans).person];
    EditRecordFields(people[k], ans);
    assert forall i | 0 <= i < |people| :: after[i].id == people[i].id;
  }

  // ---------------------------------------------------------------- SortData

  /** The comparer the two menu answers select. */
  function ChosenKey(order: int, way: int): SortKey {
    SortKey(FieldOf(order), DirectionOf(way))
  }

  // ---------------------------------------------------------------- the session

  class Session {
    /** The static roster. */
    var people: seq<Person>
    /** LoggedInUser */
    var loggedInUser: Option<string>
    /** The lines appended to log.txt, oldest first. */
    var log: seq<LogEntry>

    constructor()
      ensures people == [] && loggedInUser.None? && log == []
    {
      people := [];
      loggedInUser := None;
      log := [];
    }

    function Actor(): string
      reads this
    {
      ActorOf(loggedInUser)
    }

    method AddPerson(ans: AddAnswers) returns (added: bool)
      modifies this
      ensures added <==> NewPerson(old(people), ans).Some?
      ensures added ==> people == old(people) + [NewPerson(old(people), ans).value]
      ensures added ==> log == old(log) + [LogEntry(Actor(), "INFO",
                          PersonAdded(NewPerson(old(people), ans).value.id, NewPerson(old(people), ans).value.name))]
      ensures !added ==> people == old(people) && log == old(log)
      ensures loggedInUser == old(loggedInUser)
      ensures old(IdsUnique(people)) ==> IdsUnique(people)
    {
      added := false;
      var i := ReadUntil(ans.ids, FreshId(people));
      if i.None? { return; }
      var n := ReadUntil(ans.names, ValidName);
      if n.None? { return; }
      var l := ReadUntil(ans.lastNames, ValidName);
      if l.None? { return; }
      var ph := ReadUntil(ans.phones, ValidPhone);
      if ph.None? { return; }
      var b := ReadUntil(ans.balances, BalanceAccepted);
      if b.None? { return; }
      var p := Person(ans.ids[i.value].value, ans.names[n.value], ans.lastNames[l.value],
                      ans.phones[ph.value], ans.city, ans.balances[b.value].value);
      assert NewPerson(people, ans) == Some(p);
      if IdsUnique(people) {
        AddKeepsIdsUnique(people, ans);
      }
      people := people + [p];
      log := log + [LogEntry(Actor(), "INFO", PersonAdded(p.id, p.name))];
      added := true;
    }

    method DeletePerson(idAnswer: Option<int>, confirmation: string) returns (deleted: bool)
      modifies this
      ensures people == AfterDelete(old(people), idAnswer, confirmation)
      ensures deleted <==> idAnswer.Some? && HasId(old(people), idAnswer.value) && Confirmed(confirmation)
      ensures deleted ==> log == old(log) + [LogEntry(Actor(), "INFO",
                            PersonDeleted(idAnswer.value, old(people)[IndexOfId(old(people), idAnswer.value).value].name))]
      ensures !deleted ==> log == old(log)
      ensures loggedInUser == old(loggedInUser)
    {
      deleted := false;
      if idAnswer.None? { return; }
      var found := IndexOfId(people, idAnswer.value);
      if found.None? { return; }
      var k := found.value;
      if Confirmed(confirmation) {
        var removed := people[k];
        people := RemoveAt(people, k);
        log := log + [LogEntry(Actor(), "INFO", PersonDeleted(idAnswer.value, removed.name))];
        deleted := true;
      }
    }

    method EditPerson(idAnswer: Option<int>, ans: EditAnswers) returns (found: bool, finished: bool)
      modifies this
      ensures found <==> idAnswer.Some? && HasId(old(people), idAnswer.value)
      ensures !found ==> people == old(people) && log == old(log) && !finished
      ensures found ==>
        var k := IndexOfId(old(people), idAnswer.value).value;
        var r := EditRecord(old(people)[k], ans);
        && people == old(people)[k := r.person]
        && finished == r.finished
        && log == old(log) + (if r.finished then [LogEntry(Actor(), "INFO", PersonEdited(idAnswer.value, r.person.name))] else [])
      ensures loggedInUser == old(loggedInUser)
    {
      found, finished := false, false;
      if idAnswer.None? { return; }
      var at := IndexOfId(people, idAnswer.value);
      if at.None? { return; }
      found := true;
      var k := at.value;
      var r := EditFields(people[k], ans);
      people := people[k := r.person];
      finished := r.finished;
      if finished {
        log := log + [LogEntry(Actor(), "INFO", PersonEdited(idAnswer.value, r.person.name))];
      }
    }

    method SortData(orderAnswers: seq<Option<int>>, wayAnswers: seq<Option<int>>) returns (sorted: bool)
      modifies this
      ensures sorted <==> MenuChoice(orderAnswers, 2).Some? && MenuChoice(wayAnswers, 1).Some?
      ensures !sorted ==> people == old(people)
      ensures sorted ==>
        && multiset(people) == multiset(old(people))
        && SortedBy(people, PersonLe(ChosenKey(MenuChoice(orderAnswers, 2).value, MenuChoice(wayAnswers, 1).value)))
      ensures old(IdsUnique(people)) ==> IdsUnique(people)
      ensures log == old(log) && loggedInUser == old(loggedInUser)
    {
      sorted := false;
      var o := ReadUntil(orderAnswers, MenuAccept(2));
      if o.None? { return; }
      var w := ReadUntil(wayAnswers, MenuAccept(1));
      if w.None? { return; }
      var key := ChosenKey(ParsedOrZero(orderAnswers[o.value]), ParsedOrZero(wayAnswers[w.value]));
      PersonLeTotalPreorder(key);
      SortBySorted(people, PersonLe(key));
      if IdsUnique(people) {
        IdsUniquePermutation(people, SortBy(people, PersonLe(key)));
      }
      people := SortBy(people, PersonLe(key));
      sorted := true;
    }

    method ShowReportByCity(keyLe: (string, string) -> bool) returns (report: CityReport)
      modifies this
      ensures report == ReportByCity(people, keyLe)
      ensures people == old(people) && loggedInUser == old(loggedInUser)
      ensures log == old(log) + [LogEntry(Actor(), "INFO", ReportGenerated)]
    {
      report := PrintReport(people, keyLe);
      log := log + [LogEntry(Actor(), "INFO", ReportGenerated)];
    }

    method SaveFile(listName: string, writeSucceeds: bool) returns (lines: seq<string>)
      modifies this
      ensures lines == PeopleLines(people)
      ensures people == old(people) && loggedInUser == old(loggedInUser)
      ensures log == old(log) + (if writeSucceeds then [LogEntry(Actor(), "INFO", FileSaved(listName + ".csv"))] else [])
    {
      lines := WritePeopleLines(people);
      if !writeSucceeds {
        return;
      }
      log := log + [LogEntry(Actor(), "INFO", FileSaved(listName + ".csv"))];
    }

    method Authenticate(users: seq<User>, attempts: seq<Attempt>) returns (outcome: Outcome)
      modifies this
      ensures outcome == Authentication(users, attempts)
      ensures outcome.Finished? && outcome.granted ==> loggedInUser == outcome.loggedIn
      ensures !(outcome.Finished? && outcome.granted) ==> loggedInUser == old(loggedInUser)
      ensures people == old(people) && log == old(log)
    {
      var n := 0;
      while true
        invariant 0 <= n < MaxAttempts
        invariant AuthFrom(users, attempts, n) == Authentication(users, attempts)
        invariant loggedInUser == old(loggedInUser) && people == old(people) && log == old(log)
        decreases MaxAttempts - n
      {
        if n >= |attempts| || Enter !in attempts[n].keys {
          return Waiting;
        }
        var username := attempts[n].username;
        var password := ReadPassword(attempts[n].keys);
        var matched := FindUser(users, username);
        if matched.Some? {
          var user := users[matched.value];
          if !user.isActive {
            return Finished(false, None, users, None);
          }
          if user.password == password {
            loggedInUser := Some(user.username);
            return Finished(true, Some(user.username), users, None);
          }
        }
        n := n + 1;
        if n >= MaxAttempts {
          if matched.Some? {
            var after := users[matched.value := Deactivate(users[matched.value])];
            var saved := SaveUsers(after);
            return Finished(false, None, after, Some(saved));
          }
          return Finished(false, None, users, None);
        }
      }
    }
  }
}
