# Plain-files roster and login, modelled in Dafny

This project models the console program in `PlainFiles.Console/Program.cs`. The program keeps a
roster of people in memory. Each person has an id, a name, a last name, a phone, a city and a
balance. A logged-in user can add, delete, edit and sort people, print a balance report grouped
by city, and save the roster as comma-joined lines. Users log in against a plain users file of
`username,password,true|false` lines: at most three attempts are allowed, a blocked user is
refused at once, and the user named on the third failed attempt is blocked and the file is
rewritten.

The Dafny modules follow the program:

- `Records`: the `Person` and `User` records (`PlainFiles.Core/Person.cs`, `User.cs`) and the
  field rules AddPerson and EditPerson enforce.
- `Text`: the .NET string primitives the program relies on, written out. These are
  `string.IsNullOrWhiteSpace`, `Trim`, `Split(',')`, ordinal case-insensitive comparison, the
  `^\d{7}$` pattern with .NET's `$` rule, and `int.ToString`.
- `Seqs`, `Sorting`: `FirstOrDefault`, `Sum`, and a reference insertion sort proved to permute
  and to order. It stands for `List.Sort` and `Enumerable.OrderBy`.
- `Prompts`: the re-prompting `do … while` loops. Each prompt gets a sequence of answers, and a
  loop keeps the first acceptable one. If none is acceptable, the program is still waiting at
  that prompt and the operation has not completed.
- `PersonOrder`: SortData's comparer. It is proved to be a total preorder, so sorting by it is
  well defined.
- `Report`: ShowReportByCity's grouping, ordering, subtotals and grand total.
- `Persistence`: the people-file lines SaveFile writes, and the users-file codec (SaveUsers and
  LoadUsers) with its round trip.
- `Login`: ReadPassword as a fold over key presses, and Authenticate as a function of the
  attempts. A run of Authenticate either ends (granted or not, possibly with the users list
  changed and saved) or is still waiting for console input.
- `Program`: a `Session` class. It has three fields:
  - `people`, the static roster (Program.cs:7);
  - `loggedInUser`, the static `LoggedInUser` (Program.cs:10);
  - `log`, a list of entries standing for the appended log file.

  `listName` (Program.cs:9) is a parameter of `SaveFile`, and `manualCsv` (Program.cs:8) serves
  only the people loading, which is left out. Each menu operation is a method over its console
  answers.

Some definitions carry little or no contract of their own. The lemmas about them state what
they mean:

- `PersonOrder.FieldOf` and `DirectionOf` map the menu values of Program.cs:129-145. They are
  covered by the `PersonOrder` lemmas.
- `Report.Place`, `OrderedGroups` and `SectionOf` build the report of Program.cs:403-428. They
  are covered by `GroupByPartition`, `OrderedGroupsPartition`, `ReportSectionsExact` and
  `ReportOrdered`.
- `Program.Confirmed` is covered by `ConfirmedIff`.
- `Program.RemoveAt` is `List.Remove` at the found position (Program.cs:293). It is covered by
  `RemoveAtShifts` and `DeleteMeaning`.
- `Records.HasId` is the `people.Any(p => p.Id == id)` test (Program.cs:184) and the null test
  after `FirstOrDefault` (Program.cs:279-283). It is covered by `IndexOfId`.
- `Text.IsBlank` is `string.IsNullOrWhiteSpace` (Program.cs:204, 215, 329, 501). It is covered by
  `Trim`, `TrimKeeps` and `ParseUserLineMeaning`.
- `Text.EqualsIgnoreCase` is `Equals` with OrdinalIgnoreCase (Program.cs:549). It is covered by
  `CompareIgnoreCase` and `FindUser`.
- `Text.LexCompare` is ordinal comparison (Program.cs:137-142). It is covered by
  `LexCompareAntisymmetric` and `LexCompareTransitive`.
- `Text.IntToString` is `int.ToString()` in SaveFile's line (Program.cs:467). Its own contract
  says it is a non-empty text of digits and minus signs, and it is covered by `NumberCommaFree`
  and `PersonLine`.
- `Persistence.BoolText` is `IsActive.ToString().ToLower()` (Program.cs:527). It is covered by
  `BoolTextReads`.
- `Persistence.TrimNull` is `bool.TryParse`'s trimming of white space and NUL (Program.cs:510).
  It is covered by `ParseBool` and `TrimNullKeeps`.
- `Persistence.PeopleLines`, `UsersLines` and `ParseUsers` are the file formats. They are covered
  by `PeopleLinesLayout`, `UsersRoundTrip` and the `LoadUsers`/`SaveUsers` loops.

Three behaviours of the code are easy to misread, and the model follows the code in each:

- EditPerson is not all-or-nothing. Name and LastName are assigned before the phone prompt, and
  an invalid phone or balance re-prompts instead of rejecting the edit.
- `List.Sort` is not stable, so SortData promises only a sorted permutation.
- SaveFile joins the fields with commas rather than concatenating them.

## Model

| member | source | states |
|---|---|---|
| Records.IndexOfId | PlainFiles.Console/Program.cs:279 | the position found holds the id and no earlier record has it; nothing is found exactly when no record has the id |
| Records.IdsUniquePermutation | PlainFiles.Console/Program.cs:129-146 | a reordering of a roster with unique ids has unique ids |
| Text.Trim | PlainFiles.Console/Program.cs:508-510 | the result is the input with a white-space prefix and a white-space suffix cut off, and it neither starts nor ends with white space |
| Text.TrimKeeps | PlainFiles.Console/Program.cs:508-509 | text without surrounding white space is left as it is by Trim |
| Text.Split | PlainFiles.Console/Program.cs:502 | at least one field; no field holds the separator; joining the fields with it gives back the line |
| Text.SplitJoin | PlainFiles.Console/Program.cs:502 | splitting a join of separator-free fields gives back exactly those fields |
| Text.JoinContains | PlainFiles.Console/Program.cs:527 | a character of any field appears in the joined line |
| Text.LexCompareAntisymmetric | PlainFiles.Console/Program.cs:137-142 | ordinal comparison of a with b is the negation of b with a |
| Text.LexCompareTransitive | PlainFiles.Console/Program.cs:137-142 | ordinal comparison is transitive |
| Text.CompareIgnoreCase | PlainFiles.Console/Program.cs:137-142 | the sign of string.Compare with OrdinalIgnoreCase, as -1, 0 or 1: zero exactly when the texts are equal ignoring case |
| Text.SevenDigitsOnLine | PlainFiles.Console/Program.cs:227 | on a console line (no line feed) the phone pattern means exactly seven digits |
| Text.MatchesSevenDigits | PlainFiles.Console/Program.cs:227 | the pattern `^\d{7}$` matches exactly seven digits, optionally followed by one final line feed |
| Seqs.First | PlainFiles.Console/Program.cs:549 | FirstOrDefault: the element found is accepted, no earlier one is, and nothing is found only when nothing is accepted |
| Prompts.ReadUntil | PlainFiles.Console/Program.cs:199-208 | a re-prompt loop stops at the first acceptable answer, or keeps waiting when there is none |
| Prompts.MenuChoice | PlainFiles.Console/Program.cs:100-127 | a menu settles on a value in 0..max exactly when some answer's TryParse value lies in range, and the value is that of the first such answer |
| Prompts.NonNumericChoosesZero | PlainFiles.Console/Program.cs:107-108 | a non-numeric first answer selects option 0 |
| Sorting.SortBy | PlainFiles.Console/Program.cs:129-146 | the sorted list has the same length and the same elements with the same multiplicities |
| Sorting.SortBySorted | PlainFiles.Console/Program.cs:129-146 | with a total preorder as comparer the result is ordered by it |
| Sorting.SumOfSortBy | PlainFiles.Console/Program.cs:405-413 | reordering does not change a sum |
| PersonOrder.CompareNumbers | PlainFiles.Console/Program.cs:134 | decimal.CompareTo's sign: negative, zero or positive exactly as a < b, a == b, a > b |
| PersonOrder.Compare | PlainFiles.Console/Program.cs:129-146 | the sign of the comparer's result, as -1, 0 or 1: zero exactly when the chosen field ties (equal balance, or equal name or last name ignoring case); by balance, negative exactly when a comes first in the chosen direction |
| PersonOrder.CompareAntisymmetric | PlainFiles.Console/Program.cs:129-146 | the comparer on (a, b) is the negation of the comparer on (b, a), for every field and direction |
| PersonOrder.CompareTransitive | PlainFiles.Console/Program.cs:129-146 | the comparer is transitive for every field and direction |
| PersonOrder.PersonLeTotalPreorder | PlainFiles.Console/Program.cs:129-146 | the comparer induces a total preorder, so List.Sort can order by it |
| PersonOrder.DescendingReversesAscending | PlainFiles.Console/Program.cs:145 | a list in ascending order, read backwards, is in descending order |
| Report.InCity | PlainFiles.Console/Program.cs:404 | the people of one city come from the roster and have that city |
| Report.InCityCounts | PlainFiles.Console/Program.cs:404 | a city's people are exactly the roster's people of that city, with their multiplicities |
| Report.GroupByPartition | PlainFiles.Console/Program.cs:403-404 | GroupBy(City): each group holds exactly the people of its city, is not empty, keys are distinct, every person's city has a group |
| Report.GroupByCity | PlainFiles.Console/Program.cs:403-404 | the groups' totals add up to the roster's total balance |
| Report.PartitionPermutation | PlainFiles.Console/Program.cs:405 | reordering the groups keeps them a partition of the roster |
| Report.PermutationCovers | PlainFiles.Console/Program.cs:405 | reordering the groups keeps every person's city among the keys |
| Report.ByKeyTotalPreorder | PlainFiles.Console/Program.cs:405-421 | ordering groups by key and people by name are total preorders when the string order is |
| Report.OrderedGroupsPartition | PlainFiles.Console/Program.cs:403-406 | the ordered groups still partition the roster by city |
| Report.ReportByCity | PlainFiles.Console/Program.cs:403-433 | the grand total of the report equals the sum of every balance in the roster |
| Report.ReportSectionsExact | PlainFiles.Console/Program.cs:410-428 | each section lists exactly the people of its city (as a multiset), is not empty, and its subtotal is their balance sum |
| Report.ReportCitiesOnce | PlainFiles.Console/Program.cs:403-406 | every person's city heads a section and no city heads two |
| Report.ReportOrdered | PlainFiles.Console/Program.cs:405-421 | sections come in key order and each section's rows in name order |
| Report.PrintReport | PlainFiles.Console/Program.cs:403-433 | the foreach loop yields the report's sections and accumulates its grand total |
| Persistence.PersonLinesAt | PlainFiles.Console/Program.cs:464-468 | one line per person, line i being person i's |
| Persistence.PeopleLinesLayout | PlainFiles.Console/Program.cs:460-468 | a saved file has 1 + n lines; the header splits into the six column names; a person line splits back into that person's six values when no text field holds a comma |
| Persistence.HeaderSplits | PlainFiles.Console/Program.cs:462 | the header line splits into Id, Name, LastName, Phone, City, Balance |
| Persistence.NumberCommaFree | PlainFiles.Console/Program.cs:467 | a rendered number holds no comma |
| Persistence.PersonLine | PlainFiles.Console/Program.cs:467 | a person whose text fields hold no comma has a line that splits back into that person's six values |
| Persistence.CommaBreaksLine | PlainFiles.Console/Program.cs:467 | with a comma in a text field the line no longer splits into the person's values: the format does not escape |
| Persistence.WritePeopleLines | PlainFiles.Console/Program.cs:460-468 | the loop builds the header followed by each person's line, in list order |
| Persistence.ParseBool | PlainFiles.Console/Program.cs:510 | bool.TryParse: true exactly for "True" and false exactly for "False" in any letter case, after trimming white space and NUL |
| Persistence.TrimNullKeeps | PlainFiles.Console/Program.cs:510 | text that neither starts nor ends with white space or NUL is not trimmed |
| Persistence.BoolTextReads | PlainFiles.Console/Program.cs:510-527 | the flag text SaveUsers writes reads back as the same flag, holds no comma and needs no trimming |
| Persistence.ParseUserLineMeaning | PlainFiles.Console/Program.cs:501-512 | a line yields a user exactly when it is not blank and has three comma fields; active exactly when the third field, trimmed, parses as true |
| Persistence.ParseUserLine | PlainFiles.Console/Program.cs:501-512 | a user is read only from a non-blank line; its name and password hold no comma and have no surrounding white space |
| Persistence.UserLine | PlainFiles.Console/Program.cs:527 | a user whose name and password hold no comma has a line that splits into name, password and the flag text |
| Persistence.ParseUserLineOf | PlainFiles.Console/Program.cs:501-512 | a non-blank line of three fields yields the user of its trimmed fields |
| Persistence.UserLineNotBlank | PlainFiles.Console/Program.cs:501-527 | a written user line is never skipped as blank |
| Persistence.UserLineRoundTrip | PlainFiles.Console/Program.cs:501-527 | reading a storable user's line gives back that user |
| Persistence.ParseUsersAppend | PlainFiles.Console/Program.cs:499-513 | one more line adds that line's user, if any, at the end |
| Persistence.UsersLinesAppend | PlainFiles.Console/Program.cs:525-528 | one more user adds that user's line at the end |
| Persistence.UsersRoundTrip | PlainFiles.Console/Program.cs:499-529 | loading the lines SaveUsers writes gives back the same users in the same order when every name and password is storable |
| Persistence.ParsedStorable | PlainFiles.Console/Program.cs:508-509 | a user read from a line without line breaks is storable |
| Persistence.LineUsersStorable | PlainFiles.Console/Program.cs:501-512 | whatever one line yields is storable |
| Persistence.ParsedAllStorable | PlainFiles.Console/Program.cs:499-512 | every user loaded from lines without line breaks is storable |
| Persistence.LoadSaveLoad | PlainFiles.Console/Program.cs:486-529 | saving what was loaded and loading again gives the same users: the format is a fixed point |
| Persistence.ParseUsersStep | PlainFiles.Console/Program.cs:499-513 | reading one more line extends the users by what that line yields |
| Persistence.LoadUsers | PlainFiles.Console/Program.cs:496-519 | the foreach loop collects exactly the users the lines describe, in file order |
| Persistence.SaveUsers | PlainFiles.Console/Program.cs:522-530 | the foreach loop writes one line per user, in list order |
| Login.ReadPassword | PlainFiles.Console/Program.cs:588-614 | the do-while loop returns the text the keys type up to the first Enter |
| Login.TypedChars | PlainFiles.Console/Program.cs:597-601 | typing characters then Enter appends exactly those characters, whatever follows |
| Login.PasswordOfTypedText | PlainFiles.Console/Program.cs:588-614 | typing a text and pressing Enter reads back that text |
| Login.KeysAfterEnterIgnored | PlainFiles.Console/Program.cs:610 | keys after the first Enter do not matter |
| Login.BackspaceErases | PlainFiles.Console/Program.cs:604-608 | Backspace removes the character typed just before it |
| Login.BackspaceOnEmpty | PlainFiles.Console/Program.cs:604 | Backspace on an empty password does nothing |
| Login.Typed | PlainFiles.Console/Program.cs:597-609 | the typed text is no longer than what was there plus the keys, and each of its characters was there already or was typed |
| Login.Password | PlainFiles.Console/Program.cs:588-614 | the password read is no longer than the keys pressed, and each of its characters was typed |
| Login.FindUser | PlainFiles.Console/Program.cs:549 | the user found is the first whose name matches ignoring case; none is found exactly when no name matches |
| Login.Judge | PlainFiles.Console/Program.cs:549-565 | a welcome names the first matching user, who is active and has that password; a refusal means the first match is inactive; a retry carries the first match, if any, which is active with another password |
| Login.JudgeMeaning | PlainFiles.Console/Program.cs:549-565 | a welcome is the first matching user, active, with the exact password; a refusal is the first match being inactive; a retry with a match is an active user with another password; a retry without one means no name matched |
| Login.RetryMatchActive | PlainFiles.Console/Program.cs:553-559 | a retry that matched a user matched an active one |
| Login.AuthFrom | PlainFiles.Console/Program.cs:541-586 | a finished run grants exactly when it logs someone in, keeps every name and password in place, and saves exactly the final users when it saves |
| Login.Authentication | PlainFiles.Console/Program.cs:532-586 | a finished run grants exactly when it logs someone in, keeps every name and password in place, and saves exactly the final users when it saves |
| Login.AuthFromGrantedSound | PlainFiles.Console/Program.cs:541-564 | a grant from attempt `from` on comes from a welcomed attempt after only retries |
| Login.AuthFromGrantedComplete | PlainFiles.Console/Program.cs:541-564 | retries followed by a welcome within the limit grant access, with the outcome of the welcomed attempt |
| Login.AuthGrantedIff | PlainFiles.Console/Program.cs:541-586 | access is granted exactly when one of the first three attempts is welcomed after only retries |
| Login.AuthFromGrantedUser | PlainFiles.Console/Program.cs:541-564 | from any attempt on, a grant changes no user, saves nothing and logs in the first user matching the welcomed attempt, who is active and has the password typed |
| Login.AuthGrantedUser | PlainFiles.Console/Program.cs:541-564 | a grant changes no user, saves nothing and logs in the first user matching the welcomed attempt, who is active and has the password typed |
| Login.AuthFromReadsThree | PlainFiles.Console/Program.cs:534-541 | from any attempt on, attempts after the third are never read |
| Login.AuthReadsThree | PlainFiles.Console/Program.cs:534-541 | only the first three attempts decide the outcome |
| Login.AuthFromChanges | PlainFiles.Console/Program.cs:567-583 | from any attempt on: when every attempt up to the third is retried and the third matched a user, that user is active and the run ends refused with exactly that user blocked and the new list saved; otherwise a finished run changes no user and saves nothing |
| Login.AuthChanges | PlainFiles.Console/Program.cs:567-583 | when all three attempts are retried and the third matched a user, that user is active and the run ends refused with exactly that user blocked and the new list saved; otherwise a finished run changes no user and saves nothing |
| Login.AuthRefusedFrom | PlainFiles.Console/Program.cs:553-557 | from any attempt on, a blocked match after retries ends the run refused, with nothing changed |
| Login.AuthRefusedStops | PlainFiles.Console/Program.cs:553-557 | a blocked user is refused at once, with no further attempt and no change |
| Login.DeactivatedRefused | PlainFiles.Console/Program.cs:576-580 | blocking the matched user keeps the list storable and makes that name refused |
| Login.BlockedAfterReload | PlainFiles.Console/Program.cs:576-580 | after a lockout all three attempts were entered, the saved file loads back to the changed users, and the blocked name is then refused |
| Program.NewPerson | PlainFiles.Console/Program.cs:173-259 | a record is built exactly when every prompt got an acceptable answer (fresh numeric id, non-blank names, seven-digit phone, non-negative balance); it is well formed, its id is new, its city is the one typed, and each other field comes from the first acceptable answer of its prompt |
| Program.AddKeepsIdsUnique | PlainFiles.Console/Program.cs:184-261 | appending keeps ids unique, leaves earlier records in place and adds the new id |
| Program.ConfirmedIff | PlainFiles.Console/Program.cs:291 | the confirmation is accepted exactly for "Y" or "y" |
| Program.AfterDelete | PlainFiles.Console/Program.cs:270-304 | at most one record goes, the rest are records of the roster, and the roster changes only when the id is present and the answer is Y |
| Program.DeleteMeaning | PlainFiles.Console/Program.cs:270-304 | a non-numeric or absent id or an answer other than Y leaves the roster; otherwise exactly the first record with the id goes and the rest keep their order |
| Program.DeleteKeepsIdsUnique | PlainFiles.Console/Program.cs:279-293 | deleting keeps ids unique and removes the id altogether |
| Program.RemoveAtShifts | PlainFiles.Console/Program.cs:293 | removing one record of a roster with unique ids keeps them unique and removes its id |
| Program.EditRecordFields | PlainFiles.Console/Program.cs:327-389 | the id never changes; Name and LastName take a non-blank answer as typed; Phone and City come from the first acceptable phone answer (kept when blank), Balance from the first acceptable balance answer (kept when blank or when none is acceptable) |
| Program.EditRecord | PlainFiles.Console/Program.cs:327-389 | the id never changes, and the edit finishes exactly when both the phone and the balance loop get an acceptable answer |
| Program.EditRecordProgress | PlainFiles.Console/Program.cs:340-389 | while the phone loop waits only Name and LastName have changed |
| Program.EditFields | PlainFiles.Console/Program.cs:327-389 | the prompts, applied one by one, give the edited record |
| Program.EditKeepsWellFormed | PlainFiles.Console/Program.cs:327-389 | editing keeps a well-formed record well formed |
| Program.EditBlankKeeps | PlainFiles.Console/Program.cs:325-389 | blank answers everywhere change nothing and finish the edit |
| Program.EditKeepsIdsUnique | PlainFiles.Console/Program.cs:317-389 | editing a record in place keeps the roster's ids unique |
| Program.Session.constructor | PlainFiles.Console/Program.cs:7-10 | the program starts with an empty roster, nobody logged in and an empty log |
| Program.Session.AddPerson | PlainFiles.Console/Program.cs:173-268 | on completion exactly one record is appended at the end and logged, otherwise nothing changes; unique ids stay unique |
| Program.Session.DeletePerson | PlainFiles.Console/Program.cs:270-305 | the roster becomes the delete result; a deletion happens and is logged exactly when the id is present and confirmed |
| Program.Session.EditPerson | PlainFiles.Console/Program.cs:306-397 | only the first record with the id is replaced by its edited version; the edit is logged once both loops finish |
| Program.Session.SortData | PlainFiles.Console/Program.cs:98-150 | once both menus are answered the roster is a permutation of the old one ordered by the chosen comparer; unique ids stay unique |
| Program.Session.ShowReportByCity | PlainFiles.Console/Program.cs:398-441 | the report is the city report of the roster, the roster is unchanged, and one entry is logged |
| Program.Session.SaveFile | PlainFiles.Console/Program.cs:458-485 | the lines written are the people-file lines; the save is logged only when the write succeeds |
| Program.Session.Authenticate | PlainFiles.Console/Program.cs:532-586 | the loop ends with the outcome the attempts determine and sets the logged-in user exactly on a grant |

## Left out

- Console I/O is not modelled. This covers prompts, messages, currency formatting, the `Main` menu
  loop and `ListPeople`. Console answers are parameters, and the log is a list of entries rather
  than formatted text.
- Loading people through `NugetCsvHelper` and `ManualCsvHelper` is not part of this model. Their
  source is not among the files modelled here, so no people-file round trip is claimed.
  `Persistence.PeopleLinesLayout` states only how a saved line splits back.
- File system calls are not modelled:
  - files are sequences of lines;
  - a line break inside a field is outside the model;
  - SaveFile's write failure is the parameter `writeSucceeds`;
  - a failure of `File.WriteAllLines` in SaveUsers and of `File.ReadAllLines` in LoadUsers
    (its catch) is not modelled;
  - LoadUsers' missing-file branch, which creates the default admin user, is not modelled.
- `PlainFiles.Core/LogWriter.cs` is not part of this model, including time stamps and file
  appends.
- Persistence.PeopleLinesLayout: Balance is a `decimal` modelled as an integer, and it is written
  with invariant integer formatting. A culture whose decimal separator is a comma would add
  commas to a line, and that is not captured.
- Culture-dependent parsing is not modelled. `int.TryParse` and `decimal.TryParse` results are
  given as `Option<int>` answers.
- Text.FoldCase: OrdinalIgnoreCase and `ToUpper` are modelled with ASCII letter case only. Case
  mapping beyond ASCII and culture-specific upper-casing are not modelled.
- Text.MatchesSevenDigits: `\d` is modelled as the ASCII digits. .NET also matches other Unicode
  decimal digits.
- Report.ReportOrdered: the default culture-sensitive string comparer behind `OrderBy` is the
  parameter `keyLe`. Ordering is proved when it is a total preorder.
- Report.OrderedGroups: `Enumerable.OrderBy` is stable, and so is the reference sort. No lemma
  states that ties keep roster order.
- Program.Session.SortData: `List.Sort` is unstable. The model's sort is one of the results
  `List.Sort` may produce, and the contract promises only a sorted permutation.
- Strings are sequences of Dafny `char`, which are Unicode scalar values. .NET strings are
  UTF-16 code units: surrogate pairs and lone surrogates are not modelled.
- Login.ReadPassword: Backspace erases a whole character. `Substring(0, Length - 1)` removes one
  UTF-16 unit, so after a character outside the Basic Multilingual Plane the source leaves a lone
  high surrogate, which the model cannot represent.
- Text.LexCompare: ordinal comparison orders by code point. .NET orders by UTF-16 unit, so a
  character above U+FFFF sorts before one in U+E000..U+FFFF there and after it here. SortData's
  name order differs on such names.
- Text.CompareIgnoreCase: .NET returns a character or length difference. The model returns only
  its sign, and so does PersonOrder.Compare. Only the sign matters to `List.Sort`.
- Report.ReportByCity: `decimal` is modelled as an unbounded integer. Fractional balances, which
  `decimal.TryParse` accepts, and the OverflowException of `Sum` and `+=` beyond
  `decimal.MaxValue` are not modelled.
- Login.ReadPassword: a key press is Enter, Backspace or a character. ConsoleKeyInfo details
  (modifiers, keys whose KeyChar is `'\0'`) are folded into the character case.
- Program.Session.Authenticate: the users list is passed in and the changed list is returned in
  the outcome. The in-place mutation of the shared `User` object is not modelled.
