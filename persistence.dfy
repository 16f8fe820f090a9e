/**
 * The two line formats the program writes: SaveFile's people file (a header, then one comma-joined
 * line per person, without quoting) and the users file that SaveUsers writes and LoadUsers reads
 * back. A file is modelled as its sequence of lines.
 */
module Persistence {
  import opened Wrappers
  import opened Text
  import opened Records

  const HeaderNames: seq<string> := ["Id", "Name", "LastName", "Phone", "City", "Balance"]

  /** The header line SaveFile writes first: the column names joined by commas. */
  const PeopleHeader: string := Join(HeaderNames, ',')

  /** The six values of one people-file line, in header order. */
  function PersonFields(p: Person): seq<string> {
    [IntToString(p.id), p.name, p.lastName, p.phone, p.city, IntToString(p.balance)]
  }

  /** One person's line: its six values joined by commas, which split back when no text field holds one. */
  function PersonLine(p: Person): (r: string)
    ensures CommaFree(p) ==> Split(r, ',') == PersonFields(p)
  {
    if CommaFree(p) then
      NumberCommaFree(p.id);
      NumberCommaFree(p.balance);
      SplitJoin(PersonFields(p), ',');
      Join(PersonFields(p), ',')
    else Join(PersonFields(p), ',')
  }

  /** The person lines of a saved file, in list order. */
  function PersonLines(people: seq<Person>): seq<string> {
    if people == [] then []
    else PersonLines(people[..|people| - 1]) + [PersonLine(people[|people| - 1])]
  }

  /** The lines SaveFile hands to File.WriteAllLines. */
  function PeopleLines(people: seq<Person>): seq<string> {
    [PeopleHeader] + PersonLines(people)
  }

  /** Line i of the person lines is person i's line. */
  lemma {:induction false} PersonLinesAt(people: seq<Person>)
    ensures |PersonLines(people)| == |people|
    ensures forall i | 0 <= i < |people| :: PersonLines(people)[i] == PersonLine(people[i])
  {
    if people != [] {
      var init := people[..|people| - 1];
      PersonLinesAt(init);
      assert PersonLines(people) == PersonLines(init) + [PersonLine(people[|people| - 1])];
      assert forall i | 0 <= i < |init| :: people[i] == init[i];
    }
  }

  /** No text field holds the separator. */
  predicate CommaFree(p: Person) {
    ',' !in p.name && ',' !in p.lastName && ',' !in p.phone && ',' !in p.city
  }

  /**
   * A saved people file has one header line naming the six columns and then one line per person,
   * in list order; a line splits back into that person's six values whenever no text field holds
   * a comma.
   */
  lemma PeopleLinesLayout(people: seq<Person>)
    ensures |PeopleLines(people)| == |people| + 1
    ensures Split(PeopleLines(people)[0], ',') == HeaderNames
    ensures forall i | 0 <= i < |people| && CommaFree(people[i]) ::
      Split(PeopleLines(people)[i + 1], ',') == PersonFields(people[i])
  {
    PersonLinesAt(people);
    assert PeopleLines(people)[0] == PeopleHeader;
    assert forall i | 0 <= i < |people| :: PeopleLines(people)[i + 1] == PersonLines(people)[i];
    HeaderSplits();
  }

  /** The header names the six columns in the order the person lines give them. */
  lemma HeaderSplits()
    ensures Split(PeopleHeader, ',') == HeaderNames
  {
    SplitJoin(HeaderNames, ',');
  }

  lemma NumberCommaFree(n: int)
    ensures ',' !in IntToString(n)
  {
    var t := IntToString(n);
    assert forall k | 0 <= k < |t| :: t[k] != ',';
  }

  /** SaveFile's list of lines: the header, then one line per person in a foreach loop. */
  method WritePeopleLines(people: seq<Person>) returns (lines: seq<string>)
    ensures lines == PeopleLines(people)
  {
    lines := [PeopleHeader];
    for i := 0 to |people|
      invariant lines == PeopleLines(people[..i])
    {
      assert people[..i + 1][..i] == people[..i];
      lines := lines + [PersonLine(people[i])];
    }
    assert people[..|people|] == people;
  }

  /** The format does not escape: a comma inside a text field makes the line split differently. */
  lemma CommaBreaksLine(p: Person)
    requires !CommaFree(p)
    ensures Split(PersonLine(p), ',') != PersonFields(p)
  {
    var f := PersonFields(p);
    assert ',' in f[1] || ',' in f[2] || ',' in f[3] || ',' in f[4];
    var r := Split(PersonLine(p), ',');
    assert forall i | 0 <= i < |r| :: ',' !in r[i];
  }

  /** bool.ToString().ToLower() */
  function BoolText(b: bool): string {
    if b then "true" else "false"
  }

  /** One users-file line: `username,password,true|false`; it splits back into the three texts. */
  function UserLine(u: User): (r: string)
    ensures ',' !in u.username && ',' !in u.password ==>
      Split(r, ',') == [u.username, u.password, BoolText(u.isActive)]
  {
    var fields := [u.username, u.password, BoolText(u.isActive)];
    assert ',' !in BoolText(u.isActive);
    if ',' !in u.username && ',' !in u.password then
      SplitJoin(fields, ',');
      Join(fields, ',')
    else Join(fields, ',')
  }

  /** The lines SaveUsers hands to File.WriteAllLines, one per user in list order. */
  function UsersLines(users: seq<User>): seq<string> {
    seq(|users|, i requires 0 <= i < |users| => UserLine(users[i]))
  }

  predicate IsWhiteSpaceOrNull(c: char) {
    IsWhiteSpace(c) || c == '\0'
  }

  /** The text bool.TryParse compares: white space and NUL trimmed from both ends. */
  function TrimNull(s: string): string {
    TrimStartWhere(TrimEndWhere(s, IsWhiteSpaceOrNull), IsWhiteSpaceOrNull)
  }

  /** bool.TryParse: "True" or "False" in any letter case, after trimming white space and NUL. */
  function ParseBool(s: string): (r: Option<bool>)
    ensures r == Some(true) <==> EqualsIgnoreCase(TrimNull(s), "True")
    ensures r == Some(false) <==> EqualsIgnoreCase(TrimNull(s), "False")
  {
    var t := TrimNull(s);
    if EqualsIgnoreCase(t, "True") then Some(true)
    else if EqualsIgnoreCase(t, "False") then
      assert |FoldCase(t)| == 5;
      Some(false)
    else None
  }

  lemma TrimNullKeeps(s: string)
    requires s != [] && !IsWhiteSpaceOrNull(s[0]) && !IsWhiteSpaceOrNull(s[|s| - 1])
    ensures TrimNull(s) == s
  {
  }

  /** What SaveUsers writes for a flag is what bool.TryParse reads back; it needs no trimming. */
  lemma BoolTextReads(b: bool)
    ensures ParseBool(BoolText(b)) == Some(b)
    ensures ',' !in BoolText(b) && NoSurroundingSpace(BoolText(b))
  {
    var s := BoolText(b);
    assert s[0] in "tf" && s[|s| - 1] == 'e';
    TrimNullKeeps(s);
    var f := FoldCase(s);
    if b {
      assert f[0] == 'T' && f[1] == 'R' && f[2] == 'U' && f[3] == 'E';
      assert f == "TRUE";
      assert FoldCase("True") == "TRUE";
    } else {
      assert f[0] == 'F' && f[1] == 'A' && f[2] == 'L' && f[3] == 'S' && f[4] == 'E';
      assert f == "FALSE";
      assert FoldCase("False") == "FALSE";
    }
  }

  /**
   * One iteration of LoadUsers' loop: a blank line or a line that does not split into exactly
   * three comma fields yields no user; otherwise the trimmed fields make one, active only when the
   * third reads as boolean true.
   */
  function ParseUserLine(line: string): (r: Option<User>)
    ensures r.Some? ==> !IsBlank(line)
    ensures r.Some? ==>
      && NoSurroundingSpace(r.value.username) && NoSurroundingSpace(r.value.password)
      && ',' !in r.value.username && ',' !in r.value.password
  {
    if IsBlank(line) then None
    else
      var fields := Split(line, ',');
      if |fields| != 3 then None
      else Some(User(Trim(fields[0]), Trim(fields[1]), ParseBool(Trim(fields[2])) == Some(true)))
  }

  /**
   * A line yields a user exactly when it is not blank and has three comma fields; the user is then
   * active exactly when the third field reads as boolean true.
   */
  lemma ParseUserLineMeaning(line: string)
    ensures ParseUserLine(line).Some? <==> !IsBlank(line) && |Split(line, ',')| == 3
    ensures ParseUserLine(line).Some? ==>
      (ParseUserLine(line).value.isActive <==> ParseBool(Trim(Split(line, ',')[2])) == Some(true))
  {
  }

  /** The users one line contributes: none or one. */
  function LineUsers(line: string): seq<User> {
    match ParseUserLine(line)
    case Some(u) => [u]
    case None => []
  }

  /** The users LoadUsers collects from the file's lines, in file order. */
  function ParseUsers(lines: seq<string>): seq<User> {
    if lines == [] then []
    else
      ParseUsers(lines[..|lines| - 1]) + LineUsers(lines[|lines| - 1])
  }

  /**
   * A user survives a save and a load when its name and password hold no comma and no line break
   * and do not start or end with white space.
   */
  predicate Storable(u: User) {
    && ',' !in u.username && ',' !in u.password
    && '\n' !in u.username && '\n' !in u.password
    && '\r' !in u.username && '\r' !in u.password
    && NoSurroundingSpace(u.username) && NoSurroundingSpace(u.password)
  }

  lemma ParseUserLineOf(line: string, a: string, b: string, c: string)
    requires !IsBlank(line) && Split(line, ',') == [a, b, c]
    ensures ParseUserLine(line) == Some(User(Trim(a), Trim(b), ParseBool(Trim(c)) == Some(true)))
  {
    var r := ParseUserLine(line);
    assert r.Some?;
    assert r.value.username == Trim(a) && r.value.password == Trim(b);
    assert r.value.isActive == (ParseBool(Trim(c)) == Some(true));
  }

  lemma UserLineNotBlank(u: User)
    ensures !IsBlank(UserLine(u))
  {
    var fields := [u.username, u.password, BoolText(u.isActive)];
    var line := UserLine(u);
    assert line == u.username + [','] + Join(fields[1..], ',');
    assert line[|u.username|] == ',';
    assert !IsWhiteSpace(',');
  }

  lemma UserLineRoundTrip(u: User)
    requires Storable(u)
    ensures ParseUserLine(UserLine(u)) == Some(u)
  {
    var fields := [u.username, u.password, BoolText(u.isActive)];
    BoolTextReads(u.isActive);
    SplitJoin(fields, ',');
    UserLineNotBlank(u);
    ParseUserLineOf(UserLine(u), u.username, u.password, BoolText(u.isActive));
    TrimKeeps(u.username);
    TrimKeeps(u.password);
    TrimKeeps(BoolText(u.isActive));
  }

  lemma {:induction false} ParseUsersAppend(lines: seq<string>, line: string)
    ensures ParseUsers(lines + [line]) ==
      ParseUsers(lines) + LineUsers(line)
  {
    assert (lines + [line])[..|lines|] == lines;
  }

  lemma UsersLinesAppend(users: seq<User>, u: User)
    ensures UsersLines(users + [u]) == UsersLines(users) + [UserLine(u)]
  {
  }

  /** Loading what SaveUsers wrote gives back the same users, in the same order. */
  lemma {:induction false} UsersRoundTrip(users: seq<User>)
    requires AllStorable(users)
    ensures ParseUsers(UsersLines(users)) == users
  {
    if users != [] {
      var init := users[..|users| - 1];
      var u := users[|users| - 1];
      assert users == init + [u];
      UsersRoundTrip(init);
      UserLineRoundTrip(u);
      UsersLinesAppend(init, u);
      ParseUsersAppend(UsersLines(init), UserLine(u));
    }
  }

  /** A user parsed from a line without line breaks can be stored. */
  lemma ParsedStorable(line: string)
    requires '\n' !in line && '\r' !in line
    requires ParseUserLine(line).Some?
    ensures Storable(ParseUserLine(line).value)
  {
    var fields := Split(line, ',');
    var u := ParseUserLine(line).value;
    forall c | c in u.username || c in u.password
      ensures c in line
    {
      if c in u.username {
        JoinContains(fields, ',', 0, c);
      } else {
        JoinContains(fields, ',', 1, c);
      }
    }
  }

  predicate AllStorable(users: seq<User>) {
    forall i | 0 <= i < |users| :: Storable(users[i])
  }

  lemma LineUsersStorable(line: string)
    requires '\n' !in line && '\r' !in line
    ensures AllStorable(LineUsers(line))
  {
    var r := ParseUserLine(line);
    if r.Some? {
      ParsedStorable(line);
      assert Storable(r.value);
    }
  }

  lemma AllStorableAppend(a: seq<User>, b: seq<User>)
    requires AllStorable(a) && AllStorable(b)
    ensures AllStorable(a + b)
  {
    forall i | 0 <= i < |a + b|
      ensures Storable((a + b)[i])
    {
      if i >= |a| {
        assert (a + b)[i] == b[i - |a|];
      }
    }
  }

  lemma {:induction false} ParsedAllStorable(lines: seq<string>)
    requires forall i | 0 <= i < |lines| :: '\n' !in lines[i] && '\r' !in lines[i]
    ensures AllStorable(ParseUsers(lines))
  {
    if lines != [] {
      var init := lines[..|lines| - 1];
      var last := lines[|lines| - 1];
      assert lines == init + [last];
      ParsedAllStorable(init);
      ParseUsersAppend(init, last);
      LineUsersStorable(last);
      AllStorableAppend(ParseUsers(init), LineUsers(last));
    }
  }

  /** Saving what was loaded and loading again changes nothing: the file format is a fixed point. */
  lemma LoadSaveLoad(lines: seq<string>)
    requires forall i | 0 <= i < |lines| :: '\n' !in lines[i] && '\r' !in lines[i]
    ensures ParseUsers(UsersLines(ParseUsers(lines))) == ParseUsers(lines)
  {
    ParsedAllStorable(lines);
    UsersRoundTrip(ParseUsers(lines));
  }

  /** Reading one more line adds the user that line yields, if any. */
  lemma ParseUsersStep(lines: seq<string>, i: nat, user: Option<User>)
    requires i < |lines| && user == ParseUserLine(lines[i])
    ensures ParseUsers(lines[..i + 1]) == ParseUsers(lines[..i]) + (if user.Some? then [user.value] else [])
  {
    assert lines[..i + 1][..i] == lines[..i];
  }

  /** LoadUsers' foreach loop over the lines File.ReadAllLines returned. */
  method LoadUsers(lines: seq<string>) returns (users: seq<User>)
    ensures users == ParseUsers(lines)
  {
    users := [];
    for i := 0 to |lines|
      invariant users == ParseUsers(lines[..i])
    {
      var user := ParseUserLine(lines[i]);
      ParseUsersStep(lines, i, user);
      if user.Some? {
        users := users + [user.value];
      }
    }
    assert lines[..|lines|] == lines;
  }

  /** SaveUsers' foreach loop building the lines to write. */
  method SaveUsers(users: seq<User>) returns (lines: seq<string>)
    ensures lines == UsersLines(users)
  {
    lines := [];
    for i := 0 to |users|
      invariant lines == UsersLines(users[..i])
    {
      lines := lines + [UserLine(users[i])];
    }
    assert users[..|users|] == users;
  }
}
