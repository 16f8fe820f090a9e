/**
 * Authenticate and its local ReadPassword: the masked password reader as a fold over the key
 * presses up to Enter, and the three-attempt login with case-insensitive user lookup, immediate
 * refusal of a blocked user and deactivation of the user matched on the last failed attempt.
 */
module Login {
  import opened Wrappers
  import opened Text
  import opened Seqs
  import opened Records
  import opened Persistence

  /** A key press as ReadPassword sees it: Enter, Backspace, or any other key with its character. */
  datatype Key = Enter | Backspace | Char(c: char)

  /**
   * The password after the keys are applied to `acc`, up to and excluding the first Enter: each key
   * adds at most one character, and every character was already there or typed by a key.
   */
  function Typed(acc: string, keys: seq<Key>): (r: string)
    ensures |r| <= |acc| + |keys|
    ensures forall c | c in r :: c in acc || Char(c) in keys
    decreases |keys|
  {
    if keys == [] then acc
    else match keys[0]
      case Enter => acc
      case Backspace => Typed(if |acc| > 0 then acc[..|acc| - 1] else acc, keys[1..])
      case Char(c) => Typed(acc + [c], keys[1..])
  }

  /** What ReadPassword returns for the key presses: only characters typed, at most one per key. */
  function Password(keys: seq<Key>): (r: string)
    ensures |r| <= |keys|
    ensures forall c | c in r :: Char(c) in keys
  {
    Typed("", keys)
  }

  /** ReadPassword's do-while loop over the key presses; it returns on the first Enter. */
  method ReadPassword(keys: seq<Key>) returns (password: string)
    requires Enter in keys
    ensures password == Password(keys)
  {
    password := "";
    var i := 0;
    while keys[i] != Enter
      invariant 0 <= i < |keys|
      invariant Enter in keys[i..]
      invariant Typed(password, keys[i..]) == Password(keys)
      decreases |keys| - i
    {
      assert keys[i..] == [keys[i]] + keys[i + 1..];
      if keys[i].Char? {
        password := password + [keys[i].c];
      } else if |password| > 0 {
        password := password[..|password| - 1];
      }
      i := i + 1;
    }
    assert keys[i..] == [Enter] + keys[i + 1..];
  }

  /** The key presses that type `s` character by character. */
  function Chars(s: string): (r: seq<Key>)
    ensures |r| == |s| && Enter !in r
  {
    seq(|s|, i requires 0 <= i < |s| => Char(s[i]))
  }

  /** Typing a string and pressing Enter yields that string, whatever is pressed afterwards. */
  lemma {:induction false} TypedChars(acc: string, s: string, rest: seq<Key>)
    ensures Typed(acc, Chars(s) + [Enter] + rest) == acc + s
    decreases |s|
  {
    var keys := Chars(s) + [Enter] + rest;
    if s == [] {
      assert keys[0] == Enter;
    } else {
      assert keys[0] == Char(s[0]);
      assert keys[1..] == Chars(s[1..]) + [Enter] + rest;
      TypedChars(acc + [s[0]], s[1..], rest);
      assert acc + [s[0]] + s[1..] == acc + s;
    }
  }

  lemma PasswordOfTypedText(s: string, rest: seq<Key>)
    ensures Password(Chars(s) + [Enter] + rest) == s
  {
    TypedChars("", s, rest);
  }

  /** Keys after the first Enter are not read. */
  lemma {:induction false} KeysAfterEnterIgnored(acc: string, pre: seq<Key>, rest: seq<Key>)
    requires Enter !in pre
    ensures Typed(acc, pre + [Enter] + rest) == Typed(acc, pre + [Enter])
    decreases |pre|
  {
    if pre == [] {
      assert (pre + [Enter] + rest)[0] == Enter;
    } else {
      var next := if pre[0].Char? then acc + [pre[0].c] else if |acc| > 0 then acc[..|acc| - 1] else acc;
      assert (pre + [Enter] + rest)[1..] == pre[1..] + [Enter] + rest;
      assert (pre + [Enter])[1..] == pre[1..] + [Enter];
      KeysAfterEnterIgnored(next, pre[1..], rest);
    }
  }

  /** Backspace erases the character typed just before it. */
  lemma BackspaceErases(acc: string, c: char, rest: seq<Key>)
    ensures Typed(acc, [Char(c), Backspace] + rest) == Typed(acc, rest)
  {
    var keys := [Char(c), Backspace] + rest;
    assert keys[1..] == [Backspace] + rest;
    assert keys[1..][1..] == rest;
    assert (acc + [c])[..|acc|] == acc;
  }

  /** Backspace on an empty password does nothing. */
  lemma BackspaceOnEmpty(rest: seq<Key>)
    ensures Password([Backspace] + rest) == Password(rest)
  {
    assert ([Backspace] + rest)[1..] == rest;
  }

  /** Authenticate tries at most this many times. */
  const MaxAttempts: nat := 3

  /** One round of the login prompt: the line typed at "User:" and the keys pressed at "Password:". */
  datatype Attempt = Attempt(username: string, keys: seq<Key>)

  /** u.Username.Equals(username, StringComparison.OrdinalIgnoreCase) */
  function NameMatches(username: string): User -> bool {
    (u: User) => EqualsIgnoreCase(u.username, username)
  }

  /** users.FirstOrDefault(...): the first user whose name matches, ignoring case. */
  function FindUser(users: seq<User>, username: string): (r: Option<nat>)
    ensures r.Some? ==> r.value < |users| && EqualsIgnoreCase(users[r.value].username, username)
    ensures r.Some? ==> forall j | 0 <= j < r.value :: !EqualsIgnoreCase(users[j].username, username)
    ensures r.None? <==> forall j | 0 <= j < |users| :: !EqualsIgnoreCase(users[j].username, username)
  {
    First(users, NameMatches(username))
  }

  /** What one attempt decides. */
  datatype Verdict =
    | Welcome(index: nat)          // the matched user is active and the password is right
    | Refused                      // the matched user is blocked: Authenticate gives up at once
    | Retry(matched: Option<nat>)  // no match, or a wrong password for the matched user

  /**
   * The verdict on one attempt: a welcome names the first matching user, active, with this exact
   * password; a refusal means that user is blocked; a retry carries the match, if any, which is
   * then active with another password.
   */
  function Judge(users: seq<User>, username: string, password: string): (r: Verdict)
    ensures r.Welcome? ==>
      FindUser(users, username) == Some(r.index) && users[r.index].isActive && users[r.index].password == password
    ensures r.Refused? ==>
      FindUser(users, username).Some? && !users[FindUser(users, username).value].isActive
    ensures r.Retry? ==>
      && r.matched == FindUser(users, username)
      && (r.matched.Some? ==> users[r.matched.value].isActive && users[r.matched.value].password != password)
  {
    match FindUser(users, username)
    case None => Retry(None)
    case Some(k) =>
      if !users[k].isActive then Refused
      else if users[k].password == password then Welcome(k)
      else Retry(Some(k))
  }

  /**
   * A verdict means what the source checks: a welcome is the first matching user, active, with the
   * exact password; a refusal is the first matching user, inactive; a retry with a match is that
   * user, active, with another password; a retry without one means no name matched.
   */
  lemma JudgeMeaning(users: seq<User>, username: string, password: string)
    ensures var v := Judge(users, username, password);
      && (v.Welcome? <==> (exists k | 0 <= k < |users| :: FindUser(users, username) == Some(k)
                             && users[k].isActive && users[k].password == password))
      && (v.Welcome? ==> FindUser(users, username) == Some(v.index)
                          && users[v.index].isActive && users[v.index].password == password)
      && (v.Refused? <==> (exists k | 0 <= k < |users| :: FindUser(users, username) == Some(k)
                             && !users[k].isActive))
      && (v.Retry? && v.matched.Some? ==>
            FindUser(users, username) == v.matched
            && users[v.matched.value].isActive && users[v.matched.value].password != password)
      && (v == Retry(None) <==> FindUser(users, username).None?)
  {
  }

  function Deactivate(u: User): User {
    u.(isActive := false)
  }

  /** How a run of Authenticate ends, or that it is still waiting for console input. */
  datatype Outcome =
    | Waiting
    | Finished(granted: bool, loggedIn: Option<string>, users: seq<User>, saved: Option<seq<string>>)

  /** The attempt reached a verdict: its password prompt saw Enter. */
  predicate Entered(attempts: seq<Attempt>, n: nat) {
    n < |attempts| && Enter in attempts[n].keys
  }

  function VerdictAt(users: seq<User>, attempts: seq<Attempt>, n: nat): Verdict
    requires Entered(attempts, n)
  {
    Judge(users, attempts[n].username, Password(attempts[n].keys))
  }

  /**
   * The run of Authenticate from attempt number `n` (counting from 0) on. A finished run logs a
   * user in exactly when it grants access, keeps every stored name and password, and saves, if
   * anything, the lines of the users it ends with.
   */
  function AuthFrom(users: seq<User>, attempts: seq<Attempt>, n: nat): (r: Outcome)
    requires n < MaxAttempts
    ensures r.Finished? ==> (r.granted <==> r.loggedIn.Some?)
    ensures r.Finished? ==> |r.users| == |users| && forall i | 0 <= i < |users| ::
      r.users[i].username == users[i].username && r.users[i].password == users[i].password
    ensures r.Finished? && r.saved.Some? ==> r.saved.value == UsersLines(r.users)
    decreases MaxAttempts - n
  {
    if !Entered(attempts, n) then Waiting
    else match VerdictAt(users, attempts, n)
      case Welcome(k) => Finished(true, Some(users[k].username), users, None)
      case Refused => Finished(false, None, users, None)
      case Retry(m) =>
        if n + 1 < MaxAttempts then AuthFrom(users, attempts, n + 1)
        else if m.Some? then
          var after := users[m.value := Deactivate(users[m.value])];
          Finished(false, None, after, Some(UsersLines(after)))
        else Finished(false, None, users, None)
  }

  /** The whole run of Authenticate, with the guarantees of AuthFrom. */
  function Authentication(users: seq<User>, attempts: seq<Attempt>): (r: Outcome)
    ensures r.Finished? ==> (r.granted <==> r.loggedIn.Some?)
    ensures r.Finished? ==> |r.users| == |users| && forall i | 0 <= i < |users| ::
      r.users[i].username == users[i].username && r.users[i].password == users[i].password
    ensures r.Finished? && r.saved.Some? ==> r.saved.value == UsersLines(r.users)
  {
    AuthFrom(users, attempts, 0)
  }

  /** Attempts `from` .. `n - 1` were all completed and all asked for a retry. */
  predicate RetriedBetween(users: seq<User>, attempts: seq<Attempt>, from: nat, n: nat) {
    forall m | from <= m < n :: Entered(attempts, m) && VerdictAt(users, attempts, m).Retry?
  }

  predicate WelcomedAt(users: seq<User>, attempts: seq<Attempt>, n: nat) {
    Entered(attempts, n) && VerdictAt(users, attempts, n).Welcome?
  }

  lemma {:induction false} AuthFromGrantedSound(users: seq<User>, attempts: seq<Attempt>, from: nat)
    requires from < MaxAttempts
    requires AuthFrom(users, attempts, from).Finished? && AuthFrom(users, attempts, from).granted
    ensures exists n | from <= n < MaxAttempts ::
      RetriedBetween(users, attempts, from, n) && WelcomedAt(users, attempts, n)
    decreases MaxAttempts - from
  {
    if VerdictAt(users, attempts, from).Retry? {
      AuthFromGrantedSound(users, attempts, from + 1);
      var n :| from + 1 <= n < MaxAttempts
        && RetriedBetween(users, attempts, from + 1, n) && WelcomedAt(users, attempts, n);
      assert RetriedBetween(users, attempts, from, n);
    } else {
      assert RetriedBetween(users, attempts, from, from) && WelcomedAt(users, attempts, from);
    }
  }

  lemma {:induction false} AuthFromGrantedComplete(users: seq<User>, attempts: seq<Attempt>, from: nat, n: nat)
    requires from <= n < MaxAttempts
    requires RetriedBetween(users, attempts, from, n) && WelcomedAt(users, attempts, n)
    ensures AuthFrom(users, attempts, from).Finished? && AuthFrom(users, attempts, from).granted
    ensures AuthFrom(users, attempts, from) == AuthFrom(users, attempts, n)
    decreases n - from
  {
    if from < n {
      assert Entered(attempts, from) && VerdictAt(users, attempts, from).Retry?;
      assert RetriedBetween(users, attempts, from + 1, n);
      AuthFromGrantedComplete(users, attempts, from + 1, n);
      AuthFromRetry(users, attempts, from);
    } else {
      assert VerdictAt(users, attempts, from).Welcome?;
    }
  }

  /** A retry before the last attempt hands over to the next attempt. */
  lemma AuthFromRetry(users: seq<User>, attempts: seq<Attempt>, from: nat)
    requires from + 1 < MaxAttempts && Entered(attempts, from) && VerdictAt(users, attempts, from).Retry?
    ensures AuthFrom(users, attempts, from) == AuthFrom(users, attempts, from + 1)
  {
  }

  /**
   * Access is granted exactly when one of the first three attempts is welcomed after only retries
   * before it; the session then belongs to the stored user name and nothing is saved or changed.
   */
  lemma AuthGrantedIff(users: seq<User>, attempts: seq<Attempt>)
    ensures var o := Authentication(users, attempts);
      o.Finished? && o.granted
      <==> exists n | 0 <= n < MaxAttempts ::
             RetriedBetween(users, attempts, 0, n) && WelcomedAt(users, attempts, n)
  {
    var o := Authentication(users, attempts);
    if o.Finished? && o.granted {
      AuthFromGrantedSound(users, attempts, 0);
    }
    if exists n | 0 <= n < MaxAttempts :: RetriedBetween(users, attempts, 0, n) && WelcomedAt(users, attempts, n) {
      var n :| 0 <= n < MaxAttempts && RetriedBetween(users, attempts, 0, n) && WelcomedAt(users, attempts, n);
      AuthFromGrantedComplete(users, attempts, 0, n);
    }
  }

  /**
   * The user a grant logs in: the first stored user whose name matches the welcomed attempt's,
   * active and with the password typed there, after only retries before it.
   */
  predicate LogsInAt(users: seq<User>, attempts: seq<Attempt>, from: nat, n: nat, k: nat, loggedIn: Option<string>) {
    && RetriedBetween(users, attempts, from, n) && Entered(attempts, n)
    && FindUser(users, attempts[n].username) == Some(k)
    && users[k].isActive && users[k].password == Password(attempts[n].keys)
    && loggedIn == Some(users[k].username)
  }

  lemma AuthFromGrantedUser(users: seq<User>, attempts: seq<Attempt>, from: nat)
    requires from < MaxAttempts
    ensures var o := AuthFrom(users, attempts, from);
      o.Finished? && o.granted ==>
        && o.users == users && o.saved.None?
        && exists n: nat, k: nat | from <= n < MaxAttempts :: LogsInAt(users, attempts, from, n, k, o.loggedIn)
  {
    var o := AuthFrom(users, attempts, from);
    if o.Finished? && o.granted {
      AuthFromGrantedSound(users, attempts, from);
      var n :| from <= n < MaxAttempts && RetriedBetween(users, attempts, from, n) && WelcomedAt(users, attempts, n);
      AuthFromGrantedComplete(users, attempts, from, n);
      var k := VerdictAt(users, attempts, n).index;
      JudgeMeaning(users, attempts[n].username, Password(attempts[n].keys));
      assert LogsInAt(users, attempts, from, n, k, o.loggedIn);
    }
  }

  /**
   * A granted login changes no user and saves nothing; the name logged in is the stored name of the
   * first user matching a welcomed attempt, active and with the password typed there.
   */
  lemma AuthGrantedUser(users: seq<User>, attempts: seq<Attempt>)
    ensures var o := Authentication(users, attempts);
      o.Finished? && o.granted ==>
        && o.users == users && o.saved.None?
        && exists n: nat, k: nat | n < MaxAttempts :: LogsInAt(users, attempts, 0, n, k, o.loggedIn)
  {
    AuthFromGrantedUser(users, attempts, 0);
  }

  /** At most three attempts are read: later ones never matter. */
  lemma {:induction false} AuthFromReadsThree(users: seq<User>, attempts: seq<Attempt>, from: nat)
    requires from < MaxAttempts <= |attempts|
    ensures AuthFrom(users, attempts, from) == AuthFrom(users, attempts[..MaxAttempts], from)
    decreases MaxAttempts - from
  {
    var short := attempts[..MaxAttempts];
    assert Entered(attempts, from) == Entered(short, from);
    if from + 1 < MaxAttempts {
      AuthFromReadsThree(users, attempts, from + 1);
    }
  }

  lemma AuthReadsThree(users: seq<User>, attempts: seq<Attempt>)
    requires MaxAttempts <= |attempts|
    ensures Authentication(users, attempts) == Authentication(users, attempts[..MaxAttempts])
  {
    AuthFromReadsThree(users, attempts, 0);
  }

  /**
   * The only change to the users: when the attempts from `from` on all ask for a retry and the last
   * one matched a user, that user is deactivated and the list saved; in every other run the users
   * are left as they were and nothing is saved.
   */
  lemma {:induction false} AuthFromChanges(users: seq<User>, attempts: seq<Attempt>, from: nat)
    requires from < MaxAttempts
    ensures var o := AuthFrom(users, attempts, from);
      RetriedBetween(users, attempts, from, MaxAttempts) && VerdictAt(users, attempts, MaxAttempts - 1).matched.Some? ==>
        var k := VerdictAt(users, attempts, MaxAttempts - 1).matched.value;
        && k < |users| && users[k].isActive
        && var after := users[k := Deactivate(users[k])];
           o == Finished(false, None, after, Some(UsersLines(after)))
    ensures var o := AuthFrom(users, attempts, from);
      !(RetriedBetween(users, attempts, from, MaxAttempts) && VerdictAt(users, attempts, MaxAttempts - 1).matched.Some?) ==>
        o.Finished? ==> o.users == users && o.saved.None?
    decreases MaxAttempts - from
  {
    if Entered(attempts, from) && VerdictAt(users, attempts, from).Retry? {
      if from + 1 < MaxAttempts {
        AuthFromChanges(users, attempts, from + 1);
        AuthFromRetry(users, attempts, from);
        assert RetriedBetween(users, attempts, from, MaxAttempts) <==> RetriedBetween(users, attempts, from + 1, MaxAttempts);
      } else if VerdictAt(users, attempts, from).matched.Some? {
        RetryMatchActive(users, attempts[from].username, Password(attempts[from].keys));
      }
    } else {
      assert !RetriedBetween(users, attempts, from, MaxAttempts);
    }
  }

  /** A retry that matched a user matched an active one. */
  lemma RetryMatchActive(users: seq<User>, username: string, password: string)
    requires Judge(users, username, password).Retry? && Judge(users, username, password).matched.Some?
    ensures Judge(users, username, password).matched.value < |users|
    ensures users[Judge(users, username, password).matched.value].isActive
  {
  }

  /**
   * Three retries whose last one matched a user block that user and save the list; any other run
   * leaves the users unchanged and saves nothing.
   */
  lemma AuthChanges(users: seq<User>, attempts: seq<Attempt>)
    ensures var o := Authentication(users, attempts);
      RetriedBetween(users, attempts, 0, MaxAttempts) && VerdictAt(users, attempts, MaxAttempts - 1).matched.Some? ==>
        var k := VerdictAt(users, attempts, MaxAttempts - 1).matched.value;
        && k < |users| && users[k].isActive
        && var after := users[k := Deactivate(users[k])];
           o == Finished(false, None, after, Some(UsersLines(after)))
    ensures var o := Authentication(users, attempts);
      !(RetriedBetween(users, attempts, 0, MaxAttempts) && VerdictAt(users, attempts, MaxAttempts - 1).matched.Some?) ==>
        o.Finished? ==> o.users == users && o.saved.None?
  {
    AuthFromChanges(users, attempts, 0);
  }

  /** A blocked user is refused on the attempt that names it, without further attempts or changes. */
  lemma AuthRefusedStops(users: seq<User>, attempts: seq<Attempt>, n: nat)
    requires n < MaxAttempts && RetriedBetween(users, attempts, 0, n)
    requires Entered(attempts, n) && VerdictAt(users, attempts, n).Refused?
    ensures Authentication(users, attempts) == Finished(false, None, users, None)
  {
    AuthRefusedFrom(users, attempts, 0, n);
  }

  lemma {:induction false} AuthRefusedFrom(users: seq<User>, attempts: seq<Attempt>, from: nat, n: nat)
    requires from <= n < MaxAttempts && RetriedBetween(users, attempts, from, n)
    requires Entered(attempts, n) && VerdictAt(users, attempts, n).Refused?
    ensures AuthFrom(users, attempts, from) == Finished(false, None, users, None)
    decreases n - from
  {
    if from < n {
      assert Entered(attempts, from) && VerdictAt(users, attempts, from).Retry?;
      AuthRefusedFrom(users, attempts, from + 1, n);
    }
  }

  /** Deactivating the first user a name matches keeps the list storable and refuses that name. */
  lemma DeactivatedRefused(users: seq<User>, k: nat, name: string, password: string)
    requires AllStorable(users) && FindUser(users, name) == Some(k)
    ensures AllStorable(users[k := Deactivate(users[k])])
    ensures Judge(users[k := Deactivate(users[k])], name, password) == Refused
  {
    var after := users[k := Deactivate(users[k])];
    assert forall j | 0 <= j < |users| :: after[j].username == users[j].username;
    assert FindUser(after, name) == Some(k);
  }

  /**
   * A deactivation lasts: when every user can be stored, loading the saved users file and trying
   * the same name again is refused.
   */
  lemma BlockedAfterReload(users: seq<User>, attempts: seq<Attempt>, password: string)
    requires AllStorable(users)
    requires var o := Authentication(users, attempts); o.Finished? && o.saved.Some?
    ensures var o := Authentication(users, attempts);
      && ParseUsers(o.saved.value) == o.users
      && Entered(attempts, MaxAttempts - 1)
      && Judge(o.users, attempts[MaxAttempts - 1].username, password) == Refused
  {
    var o := Authentication(users, attempts);
    AuthChanges(users, attempts);
    var last := MaxAttempts - 1;
    var k := VerdictAt(users, attempts, last).matched.value;
    var name := attempts[last].username;
    assert FindUser(users, name) == Some(k);
    DeactivatedRefused(users, k, name, password);
    UsersRoundTrip(o.users);
  }
}
