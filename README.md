# Tasketch command core, modelled in Dafny

This project models four small parts of Tasketch, a task-tracking tool driven by typed commands.

- **Command-word autocompletion** (`CommandBox.dfy`, module `CommandMatching`). Pressing Tab completes partly typed text to a known command word.
  - The text first completes to the first word it is a case-sensitive prefix of.
  - Otherwise each word is scored with a similarity ratio `1 - distance / max(length)`. The distance is an edit distance computed over a table.
  - The first word with the highest ratio wins, provided that ratio is at least one half. Otherwise the box shows "No matched command!".
- **The unique day list** (`UniqueDayList.dfy`, module `UniqueDays`, with shared queries in `Identity.dfy`). This is an ordered list of days kept unique under the identity predicate `isSameDay`, which is narrower than full equality.
  - `add`, `setDay` and `setDays` either raise an exception and leave the list as it was, or update it in place.
- **The date of a day** (`Date.dfy`, module `Dates`). This is an immutable string of the shape `\d{2}-\d{2}-\d{2}`, compared by value.
- **Two commands** over the application model (`Model.dfy`, `CommandResult.dfy`, `AddCommand.dfy`, `DeleteAccountCommand.dfy`).
  - Adding a task refuses a duplicate. Otherwise it adds the task and then commits the task book.
  - Deleting an account runs three guards in a fixed order: logged in, index in range, not your own account. Then it deletes the account and exports the account list.

## How the model is built

- **The similarity ratio** is a `float` in the source. Here it is an exact `real`.
  - `HalfThreshold` and `BelowHalfIff` prove that the one-half threshold amounts to `2 * distance > max(length)`.
  - `CrossMultiply` and `GreaterIff` prove that comparing two ratios amounts to comparing `d_a * m_b` with `d_b * m_a`.
- **`Distance(t, c, i, j)`** gives the recurrence for the first `i` characters of `t` against the first `j` of `c`, and `EditDistance` is its last cell. `Compare` fills a two-dimensional array with nested loops, as the source does. Each row is filled by `FillRow`, and `Compare` is proved to return `EditDistance`.
- **`Resolve`** states which word the command box completes to. `GetMostSimilarCommand` is the source's loop, including its `highestRatio == 0 ||` test, and is proved to return `Render(Resolve(...))`.
  - This proves that the `highestRatio == 0` test never changes what is shown. While the best ratio is 0 it may move to a later word, but such a result falls under the threshold anyway.
- **Free substitutions.** A substitution costs nothing when the two character codes are equal or differ by exactly 32. That covers upper and lower case ASCII letters, but also pairs such as `'0'`/`'P'` and `'@'`/`` '`' `` (`CodesThirtyTwoApartMatch`). The model follows the code here. A reading that only letters differing in case match is narrower than what the code does.
- **Abstract entities.** `Day`, `Task` and `Account` are type parameters. Their identity predicates (`isSameDay`, `isSameTask`), usernames and `toString` renderings are supplied functions, because their classes are not part of this model.
- **`UniqueDayList`** is a class with a `seq` field. Each method is specified by a pure function of the old list (`AddTo`, `SetDayIn`, `SetDaysTo`). The uniqueness invariant is proved about those functions.
  - It holds when `isSameDay` is symmetric (for `add`), or symmetric and transitive (for `setDay`). The source relies on these properties without stating them.
  - `setDay` checks `contains(editedDay)` against the whole list, the target included. The model does the same.
- **`Model`** is a class with the fields the two commands touch:
  - the task book, and a log of the task-book states recorded by `commitTaskBook`;
  - the displayed account list, the login status and the logged-in username;
  - a log of exported account lists.
- **Deleting an account.** `deleteAccount` removes the first account equal to the selected one. On a list without repeated accounts, this is exactly the selected position (`RemoveFirstAt`).
- **Export failure.** Export can fail with an I/O error, supplied as a parameter. The account is then already deleted, as in the source, and the command ends with `IoException`.

## Model

| member | source | states |
|---|---|---|
| CommandMatching.Min3 | src/main/java/seedu/address/ui/CommandBox.java:221-223 | the result is one of the three arguments and no greater than any of them |
| CommandMatching.DistanceBounds | src/main/java/seedu/address/ui/CommandBox.java:198-218 | the distance is at least the length difference and at most the longer length, so the ratio lies in [0, 1] |
| CommandMatching.ZeroDistanceIff | src/main/java/seedu/address/ui/CommandBox.java:205-216 | distance 0 exactly when the lengths agree and every aligned pair substitutes for free |
| CommandMatching.AllMismatchDistance | src/main/java/seedu/address/ui/CommandBox.java:205-216 | when no character pair substitutes for free, the distance is the longer length |
| CommandMatching.SubstitutionCost | src/main/java/seedu/address/ui/CommandBox.java:209-213 | a substitution costs 0 or 1, and 0 exactly when the two character codes are equal or 32 apart |
| CommandMatching.Distance | src/main/java/seedu/address/ui/CommandBox.java:205-216 | the table recurrence on prefix lengths, with EditDistance its last cell; every cell is at least the difference of its two prefix lengths |
| CommandMatching.CellUpperBound | src/main/java/seedu/address/ui/CommandBox.java:205-216 | every table cell is at most the longer of its two prefix lengths |
| CommandMatching.ZeroCellIff | src/main/java/seedu/address/ui/CommandBox.java:205-216 | a table cell is 0 exactly when its two prefixes have equal length and substitute position by position for free |
| CommandMatching.AllMismatchCell | src/main/java/seedu/address/ui/CommandBox.java:205-216 | when no character pair of the two prefixes substitutes for free, the cell is the longer prefix length |
| CommandMatching.FillRow | src/main/java/seedu/address/ui/CommandBox.java:206-216 | one pass of the inner loop makes row i hold the distances from the first i characters of the text to every prefix of the command, and leaves later rows' first cells alone |
| CommandMatching.Compare | src/main/java/seedu/address/ui/CommandBox.java:185-219 | the table-filling comparison returns the edit distance, with the empty-string shortcuts giving the other length |
| CommandMatching.SimilarityRatio | src/main/java/seedu/address/ui/CommandBox.java:177-180 | the ratio 1 - d/max lies between 0 and 1 |
| CommandMatching.GetSimilarityRatio | src/main/java/seedu/address/ui/CommandBox.java:177-180 | computing the ratio through the table gives the exact ratio of the edit distance |
| CommandMatching.HalfThreshold | src/main/java/seedu/address/ui/CommandBox.java:171 | 1 - d/m < 0.5 exactly when 2d > m |
| CommandMatching.BelowHalfIff | src/main/java/seedu/address/ui/CommandBox.java:171-173 | a word's ratio is under the threshold exactly when twice its distance exceeds the longer length |
| CommandMatching.CrossMultiply | src/main/java/seedu/address/ui/CommandBox.java:164 | one ratio exceeds another exactly when the cross-multiplied distances compare the other way |
| CommandMatching.GreaterIff | src/main/java/seedu/address/ui/CommandBox.java:164-166 | a word beats another exactly when d_a * m_b < d_b * m_a |
| CommandMatching.FirstPrefix | src/main/java/seedu/address/ui/CommandBox.java:161-163 | the index found is a word the text is a prefix of and no earlier word is; none is found only when no word has the text as prefix |
| CommandMatching.IsPrefixIff | src/main/java/seedu/address/ui/CommandBox.java:162 | the prefix test holds exactly when the text is no longer than the word and agrees with it character by character |
| CommandMatching.Resolve | src/main/java/seedu/address/ui/CommandBox.java:157-175 | the completion is always a word of the vocabulary, and some word is completed to whenever the text is a prefix of any word |
| CommandMatching.FirstBest | src/main/java/seedu/address/ui/CommandBox.java:164-166 | the index kept is one of the first n words |
| CommandMatching.FirstBestIsFirstMaximal | src/main/java/seedu/address/ui/CommandBox.java:164-166 | the index kept has the highest ratio among the first n words and every earlier word a strictly lower one (first seen wins ties) |
| CommandMatching.GetMostSimilarCommand | src/main/java/seedu/address/ui/CommandBox.java:157-175 | the loop returns the rendering of the resolution: prefix hit, else first maximal ratio if at least one half, else "No matched command!" |
| CommandMatching.PrefixTakesPrecedence | src/main/java/seedu/address/ui/CommandBox.java:161-163 | the first word the text is a prefix of is the result, whatever the ratios |
| CommandMatching.EmptyTextMatchesFirstWord | src/main/java/seedu/address/ui/CommandBox.java:158-163 | empty text completes to the first word of a non-empty vocabulary, so the 0/0 ratio never arises |
| CommandMatching.EmptyVocabularyNoMatch | src/main/java/seedu/address/ui/CommandBox.java:159-174 | an empty vocabulary gives no match |
| CommandMatching.FirstMaximalWins | src/main/java/seedu/address/ui/CommandBox.java:164-174 | without a prefix hit, a matched word is the first of maximal ratio and twice its distance is at most the longer length |
| CommandMatching.NoMatchIff | src/main/java/seedu/address/ui/CommandBox.java:159-174 | no match exactly when no word has the text as prefix and every word has 2d > max |
| CommandMatching.ZeroDistanceRatio | src/main/java/seedu/address/ui/CommandBox.java:177-180 | a word's ratio is exactly 1 when, and only when, its distance is 0 |
| CommandMatching.FirstExactWins | src/main/java/seedu/address/ui/CommandBox.java:164-174 | without a prefix hit, the first word at distance 0 is the result |
| CommandMatching.SampleVocabularyPrefix | src/main/java/seedu/address/ui/CommandBox.java:161-163 | "de" completes to "delete" over add/delete/edit/list/clear |
| CommandMatching.SampleVocabularyThreshold | src/main/java/seedu/address/ui/CommandBox.java:171-173 | "zzzzzzzz" matches nothing over add/delete/edit/list/clear |
| CommandMatching.CaseInsensitiveMatch | src/main/java/seedu/address/ui/CommandBox.java:209 | "ADD" is at distance 0 from "add" and resolves to it although it is no prefix of it |
| CommandMatching.CodesThirtyTwoApartMatch | src/main/java/seedu/address/ui/CommandBox.java:209 | codes 32 apart substitute for free beyond letters ('0' and 'P'), other distinct letters cost 1 |
| CommandMatching.SingleCharDistance | src/main/java/seedu/address/ui/CommandBox.java:209-215 | between two one-character strings the distance is the substitution cost |
| CommandMatching.EmptyTextOnCommandList | src/main/java/seedu/address/ui/CommandBox.java:48-60 | over the command box's own word list, empty text completes to "add" |
| CommandMatching.CommandWordsCompleteToThemselves | src/main/java/seedu/address/ui/CommandBox.java:48-60 | no command word is a prefix of an earlier one, so every command word typed in full completes to itself |
| Identity.AnyMatch | src/main/java/seedu/address/model/day/UniqueDayList.java:35-38 | true exactly when some element x has toCheck.isSameX(x) |
| Identity.IndexOf | src/main/java/seedu/address/model/day/UniqueDayList.java:60 | -1 exactly when the element is absent, otherwise the first position holding an equal element |
| UniqueDays.AddTo | src/main/java/seedu/address/model/day/UniqueDayList.java:44-50 | rejected with DuplicateDay exactly when an identity-equal day is present, otherwise the list with the day appended |
| UniqueDays.SetDayIn | src/main/java/seedu/address/model/day/UniqueDayList.java:57-70 | DayNotFound exactly when the target is absent (checked first); DuplicateDay exactly when found, not the same day as the edit, and the edit is contained; otherwise only the first position equal to the target changes |
| UniqueDays.SetDaysTo | src/main/java/seedu/address/model/day/UniqueDayList.java:76-83 | rejected exactly when some i < j has days[i].isSameDay(days[j]), otherwise the list becomes exactly the given days |
| UniqueDays.DaysAreUnique | src/main/java/seedu/address/model/day/UniqueDayList.java:112-121 | the nested loop answers true exactly when no pair i < j is identity-equal |
| UniqueDays.UniqueDayList.constructor | src/main/java/seedu/address/model/day/UniqueDayList.java:28 | a new list is empty |
| UniqueDays.UniqueDayList.Contains | src/main/java/seedu/address/model/day/UniqueDayList.java:35-38 | true exactly when some day x in the list has toCheck.isSameDay(x) |
| UniqueDays.UniqueDayList.Add | src/main/java/seedu/address/model/day/UniqueDayList.java:44-50 | the outcome and new list are those of AddTo, so the list is unchanged on failure; a list free of identity-equal pairs stays so, for a symmetric isSameDay |
| UniqueDays.UniqueDayList.SetDay | src/main/java/seedu/address/model/day/UniqueDayList.java:57-70 | the outcome and new list are those of SetDayIn, so the list is unchanged on failure; a list free of identity-equal pairs stays so, for a symmetric and transitive isSameDay |
| UniqueDays.UniqueDayList.SetDays | src/main/java/seedu/address/model/day/UniqueDayList.java:76-83 | the outcome and new list are those of SetDaysTo, so the list is unchanged on failure; after success the list is free of identity-equal pairs, and a unique list stays unique either way |
| UniqueDays.UniqueDayList.Equals | src/main/java/seedu/address/model/day/UniqueDayList.java:98-102 | two lists are equal exactly when their sequences of days are |
| UniqueDays.AddKeepsUnique | src/main/java/seedu/address/model/day/UniqueDayList.java:44-50 | a successful add keeps the list free of identity-equal pairs, for a symmetric isSameDay |
| UniqueDays.SetDayKeepsUnique | src/main/java/seedu/address/model/day/UniqueDayList.java:57-70 | a successful setDay keeps the list free of identity-equal pairs, for a symmetric and transitive isSameDay |
| UniqueDays.SetDaysKeepsUnique | src/main/java/seedu/address/model/day/UniqueDayList.java:76-83 | a successful setDays leaves a list free of identity-equal pairs |
| UniqueDays.SmallListsAccepted | src/main/java/seedu/address/model/day/UniqueDayList.java:112-121 | empty and one-element lists are always accepted by setDays |
| Dates.Repeat | src/main/java/seedu/address/model/day/Date.java:14 | a{n} is n copies of the atom |
| Dates.FullMatch | src/main/java/seedu/address/model/day/Date.java:32 | the whole string matches a fixed-length pattern exactly when lengths agree and each character matches its atom |
| Dates.IsValidDate | src/main/java/seedu/address/model/day/Date.java:31-33 | valid exactly when eight characters long, dashes at positions 2 and 5, and ASCII digits at 0, 1, 3, 4, 6, 7 |
| Dates.NewDate | src/main/java/seedu/address/model/day/Date.java:22-26 | construction succeeds exactly for a valid string and keeps it unchanged; otherwise it fails with the constraints message |
| Dates.Equals | src/main/java/seedu/address/model/day/Date.java:41-45 | two dates are equal exactly when their strings are |
| Dates.ToString | src/main/java/seedu/address/model/day/Date.java:36-38 | printing a valid date gives a string that constructs the same date again |
| Dates.RoundTrip | src/main/java/seedu/address/model/day/Date.java:36-38 | a valid string printed after construction is the string itself |
| Dates.ValidationExamples | src/main/java/seedu/address/model/day/Date.java:12-14 | "12-03-19" and "99-99-99" are valid; "12/03/19" and "2-03-19" are not |
| Models.RemoveFirst | src/main/java/seedu/address/logic/commands/DeleteAccountCommand.java:67 | deleting removes one occurrence of the account (as multisets) and nothing when it is absent |
| Models.RemoveFirstAt | src/main/java/seedu/address/logic/commands/DeleteAccountCommand.java:61-67 | on a list without repeats, deleting the selected account removes exactly its position |
| Models.RemoveFirstKeepsOthers | src/main/java/seedu/address/logic/commands/DeleteAccountCommand.java:63-67 | deleting an account of another username keeps every account of the given user |
| Models.Model.HasTask | src/main/java/seedu/address/logic/commands/AddCommand.java:58 | true exactly when some task in the book is identity-equal to the given one |
| Models.Model.AddTask | src/main/java/seedu/address/logic/commands/AddCommand.java:62 | the task is appended to the task book |
| Models.Model.CommitTaskBook | src/main/java/seedu/address/logic/commands/AddCommand.java:63 | the current task book is recorded as one more commit |
| Models.Model.DeleteAccount | src/main/java/seedu/address/logic/commands/DeleteAccountCommand.java:67 | the first account equal to the given one is removed |
| Models.Model.ExportFilteredAccountList | src/main/java/seedu/address/logic/commands/DeleteAccountCommand.java:68 | when writing succeeds the current account list is recorded as exported; otherwise nothing is |
| AddCommands.AddCommand.Equals | src/main/java/seedu/address/logic/commands/AddCommand.java:68-72 | two add commands are equal exactly when their tasks are |
| AddCommands.Execute | src/main/java/seedu/address/logic/commands/AddCommand.java:55-65 | a duplicate fails with the duplicate message and changes nothing; otherwise the task is appended, then exactly one commit records the book holding it, and the success message names the task |
| DeleteAccountCommands.DeleteAccountCommand.Equals | src/main/java/seedu/address/logic/commands/DeleteAccountCommand.java:72-77 | two delete-account commands are equal exactly when their indices are |
| DeleteAccountCommands.Guard | src/main/java/seedu/address/logic/commands/DeleteAccountCommand.java:50-65 | login is checked first, then the index range, then self-deletion; the first failing check gives the error, and all pass exactly when logged in, in range and not the user's own account |
| DeleteAccountCommands.Execute | src/main/java/seedu/address/logic/commands/DeleteAccountCommand.java:46-70 | a failing guard raises its error and changes nothing; otherwise the selected account is deleted, then the list is exported and the message names the account |
| DeleteAccountCommands.DeletionSpareLoggedInUser | src/main/java/seedu/address/logic/commands/DeleteAccountCommand.java:63-67 | a deletion that passes the guards keeps every account of the logged-in user, and removes exactly the selected position when the list has no repeats |
| DeleteAccountCommands.SoleAccountDeleted | src/main/java/seedu/address/logic/commands/DeleteAccountCommand.java:50-67 | no guard protects the last account: the sole account of a one-element list that is not the user's own passes every guard and is deleted |

## Left out

- Key handling, caret and style handling, `replaceText`, `showParameterForCommand` and the Tab test for an exact command word are left out. These are JavaFX user-interface code with no logic to state.
- History navigation is left out. It delegates to `ListElementPointer`, and `ListElementPointer` is not part of this model.
- `handleCommandEntered` and `handleCommandtapped` are left out. They only pass text to an external executor.
- CommandMatching.Compare and CommandMatching.GetMostSimilarCommand: text is a sequence of Unicode scalar values, while a Java string is a sequence of UTF-16 code units, and `length` and `charAt` count those units. For text holding a character outside the Basic Multilingual Plane, lengths, distances and sometimes the result differ. For example, "a\u{1F600}" against ["ab"] gives no match in the source and "ab" here. The model does not reproduce this.
- DeleteAccountCommands.Execute: the class comment of `DeleteAccountCommand` promises an exception when the last account is deleted, and `execute` declares `IllegalValueException`. No guard in `execute` checks for the last account, so such an exception could only come from `Model.deleteAccount` or `exportFilteredAccountList`, which are not part of this model. The model raises neither. `SoleAccountDeleted` shows that the guards as written let the sole account of a one-element list be deleted.
- CommandMatching.SimilarityRatio is exact. The source's `float` division rounds, which the model does not reproduce. For command-word lengths the rounded and exact comparisons agree.
- CommandMatching.GetMostSimilarCommand computes the ratio once per word. The source computes it twice, and the two computations are identical.
- CommandMatching.CommandList: only "add" (AddCommand.java) is shown among the command words. The other words are those the command box itself uses in `showParameterForCommand`, plus exit, help, history, redo and undo. The command classes defining those five are not part of this model.
- AddCommands.Execute proves that the task book holds the task afterwards only when `isSameTask` is reflexive on it. The definition of `isSameTask` is not part of this model.
- The internals of `Model`, `Day`, `Task`, `Account` and `Index` are not part of this model.
  - So the undo/redo history behind `commitTaskBook` is not modelled. A commit is recorded as the committed task-book state.
  - The filtered account list is the account list itself.
- The texts of `Messages.MESSAGE_INVALID_ACCOUNT_DISPLAYED_INDEX` and `MESSAGE_INVALID_ACCOUNT_DELETION` are not part of this model. They appear as named errors.
- `exportFilteredAccountList` writes `data/AccountList.json`. That file I/O is modelled only as a recorded export or a failure flag given as a parameter.
- `asUnmodifiableObservableList`, `iterator`, `hashCode` and list-change notifications of `UniqueDayList` are left out. So is `Date.hashCode`. They are views and hashing, with no behaviour beyond the stored sequence or string.
- Null arguments (`requireNonNull`) are left out. Dafny values are never null.
- `Academic.java` is left out. It only accumulates `double` values.
- `logic/command/ClearCommand.java` is left out. It returns a constant message.
