# Email-list dashboard, modelled in Dafny

This project models the core of a small React dashboard for mailing lists:

- **List page** (`List.jsx`): imports a CSV file of contacts and hides any `id` column from the
  shown headers, while the parsed rows keep it. It requires an email column, keeps the first row
  for each address (compared case-insensitively) and reports repeated and blocked addresses. It also saves, previews, edits and deletes the
  stored lists, and edits single cells.
- **Mail Handler page** (`MailHandler.jsx`): lets the user choose a stored list and a template,
  then map the "First Name", "Last Name" and "Email" columns. It checks every address against
  the page's email pattern and merges each row into the template's `{{placeholder}}`s. A
  progress percentage follows the send.
- **User Management page** (`UserManagement.jsx`): the user table, with create, edit and delete
  through modals, and an activity log that numbers its entries `1..n`.
- **Navigation links** (`NavbarLink.jsx`): which links a role may see, and which link is
  highlighted for the current path.

Pure logic is written as functions with lemmas:

- `Text`: the `\s` whitespace set, `trim`, one-character `split` and `join`, ASCII `toLowerCase`.
- `Records`: a CSV row as an ordered list of key/value fields.
- `Csv`: header and row parsing.
- `EmailFilter`: the duplicate and block filter, specified by a per-row verdict.
- `Template`: the placeholder merge.
- `MailTemplates`: the fixed templates.
- `NavbarLink`: the link filter and the active-path test.

Each page's component state is a class whose fields are its `useState` variables; the List page
also holds what its browser storage contains, and its invariant says that storage holds the lists
whenever there is at least one. The handlers are methods that state the whole new state. The page loops, `processCSV`'s filter pass and
`handleSendEmail`'s send loop, are methods with loop invariants, proved against the functions
that specify them.

## Model

| member | source | states |
|---|---|---|
| Text.Trim | src/components/pages/List.jsx:126-127 | `trim` leaves no white space at either end and never lengthens the string |
| Text.TrimSlice | src/components/pages/List.jsx:126-127 | the trimmed string is a slice of the original, with only white space cut off on both sides |
| Text.TrimOfTrimmed | src/components/pages/List.jsx:127 | trimming an already trimmed cell changes nothing |
| Text.ToLower | src/components/pages/List.jsx:128 | lower-casing keeps the length and maps each character on its own |
| Text.ToLowerIdempotent | src/components/pages/List.jsx:154 | lower-casing an address twice is the same as lower-casing it once |
| Text.Split | src/components/pages/List.jsx:127 | `split` at one character: at least one piece; `Text.JoinSplit`, `Text.SplitJoin` and `Text.SplitPieces` show the pieces are exactly the text between separators |
| Text.IndexOf | src/components/pages/List.jsx:127 | the position found holds the character, and no earlier position does |
| Text.JoinSplit | src/components/pages/List.jsx:127 | splitting at a separator and joining the pieces back gives the original line |
| Text.SplitJoin | src/components/pages/List.jsx:127 | splitting pieces that were joined gives the pieces back, when no piece holds the separator |
| Text.SplitPieces | src/components/pages/List.jsx:135 | no piece of a split holds the separator, and each piece is made of characters of the input |
| Text.Lines | src/components/pages/List.jsx:126 | `text.trim().split(/\r?\n/)`: at least one line; `Text.LinesUnix`, `Text.LinesHaveNoLineFeed` and `Text.LinesWindows` state what the lines are |
| Text.LinesUnix | src/components/pages/List.jsx:126 | without carriage returns, the lines joined with newlines give back the trimmed text |
| Text.LinesHaveNoLineFeed | src/components/pages/List.jsx:126 | no line of any text holds a line feed: every line feed is a line break |
| Text.LinesWindows | src/components/pages/List.jsx:126 | when every line feed of the trimmed text comes right after a carriage return, the lines joined with carriage return and line feed give back the trimmed text |
| Records.Set | src/components/pages/List.jsx:299 | the object spread `{...row, [key]: value}`; `Records.SetKeys`, `Records.GetSetSame`, `Records.GetSetOther` and `Records.SetWellFormed` state its effect |
| Records.Get | src/components/pages/List.jsx:153 | reading a cell finds a value exactly when the row has that key |
| Records.SetKeys | src/components/pages/List.jsx:136-139 | assigning a key keeps the key order, and a new key goes last |
| Records.SetHasKey | src/components/pages/List.jsx:136-139 | after an assignment, the row has exactly its old keys plus the assigned one |
| Records.SetWellFormed | src/components/pages/List.jsx:136-139 | assignment keeps the keys of a row distinct |
| Records.GetSetSame | src/components/pages/List.jsx:299 | a cell reads back the value just assigned to it |
| Records.GetSetOther | src/components/pages/List.jsx:299 | assigning one cell leaves every other cell of the row as it was |
| Csv.TrimmedCells | src/components/pages/List.jsx:127 | a line gives one cell per comma-separated piece, and each cell is that piece trimmed |
| Csv.DisplayHeaders | src/components/pages/List.jsx:128 | the shown headers are the file's headers in their order, without exactly the `id` columns (any case); a repeated header is shown as often as it occurs |
| Csv.FindEmailColumn | src/components/pages/List.jsx:130-131 | finds the first header that is `email` in any case, and finds none exactly when no header is |
| Csv.RowUpTo | src/components/pages/List.jsx:134-140 | the `reduce` over the first n headers, one spread per header; its keys and values are stated by `Csv.RowKeys`, `Csv.RowKeysInOrder` and `Csv.RowValues` |
| Csv.ParseRow | src/components/pages/List.jsx:133-141 | one data line as a record over all headers; `Csv.ParsedRows` and `Csv.ParsedRowKeys` state its contents |
| Csv.RowKeys | src/components/pages/List.jsx:134-140 | a parsed row has distinct keys: exactly the headers of the file |
| Csv.RowKeysInOrder | src/components/pages/List.jsx:136-139 | with distinct headers, a row's keys are the headers in file order |
| Csv.RowValues | src/components/pages/List.jsx:136-139 | under each header is the cell at its position, or "" when the line is short; a repeated header keeps the last cell |
| Csv.ParseCsv | src/components/pages/List.jsx:125-140 | fails exactly when no header is `email`; otherwise gives the headers, the first header that is `email` in any case as the email key, and one parsed row per data line |
| Csv.ParsedRows | src/components/pages/List.jsx:134-140 | every parsed row has distinct keys and holds the email column, and each header holds the cell at its last position |
| Csv.ParsedRowKeys | src/components/pages/List.jsx:134-140 | with distinct headers, every parsed row has exactly the headers as keys, in order |
| EmailFilter.VerdictOf | src/components/pages/List.jsx:152-162 | the fate of one row: Blocked when its lower-cased address is blocked, Duplicate when an earlier row has the same lower-cased address, Retained otherwise |
| EmailFilter.Classify | src/components/pages/List.jsx:143-165 | the filter pass over the first n rows as a value; `EmailFilter.FilterEmails` is proved equal to it, and the `Classify…` lemmas state its partition, order and reports |
| EmailFilter.BlockedSet | src/components/pages/List.jsx:143 | the blocked set holds exactly the lower-cased blocked addresses |
| EmailFilter.FilterEmails | src/components/pages/List.jsx:143-166 | the filter loop yields the kept rows and both reports of the row-by-row verdicts |
| EmailFilter.ClassifySizes | src/components/pages/List.jsx:152-166 | every row goes to exactly one output: kept, duplicate or blocked |
| EmailFilter.ClassifyUniqueRows | src/components/pages/List.jsx:160-165 | every kept row is an input row that was judged kept, in increasing input position |
| EmailFilter.ClassifyRetainedKept | src/components/pages/List.jsx:160-165 | every row that is judged kept appears among the kept rows |
| EmailFilter.ClassifyUniqueInOrder | src/components/pages/List.jsx:165 | the kept rows are a subsequence of the input |
| EmailFilter.ClassifyUniqueDistinct | src/components/pages/List.jsx:156-165 | the kept rows have pairwise different lower-cased addresses, none of them blocked |
| EmailFilter.FirstOccurrenceRetained | src/components/pages/List.jsx:160-165 | an address that is not blocked is kept at its earliest row |
| EmailFilter.ClassifyFirstWins | src/components/pages/List.jsx:156-165 | every address that is not blocked is kept, every later repeat is reported as written, and no blocked address is reported as a duplicate |
| EmailFilter.ClassifyReports | src/components/pages/List.jsx:156-163 | every duplicate row's address is in the duplicate report and every blocked row's address in the blocked report, each spelled as in its row; reported duplicates are never blocked addresses and reported blocked ones always are |
| EmailFilter.ClassifyDuplicateRows | src/components/pages/List.jsx:152-162 | the duplicate report is exactly the addresses of the rows judged duplicate, in row order, repeats included |
| EmailFilter.ClassifyBlockedRows | src/components/pages/List.jsx:152-158 | the blocked report is exactly the addresses of the rows judged blocked, in row order, repeats included |
| ListPage.RemoveAt | src/components/pages/List.jsx:262-263 | deleting at an index shifts the later lists down by one and keeps the earlier ones; an index out of range changes nothing |
| ListPage.Columns | src/components/pages/List.jsx:227-230 | a stored list shows the keys of its first row in order, without `id` columns and with every other key occurrence (their number is the key count less the `id` count), and nothing when it is empty |
| ListPage.Import | src/components/pages/List.jsx:125-166 | the parse error, or the filter pass over the parsed rows against the fixed blocked list; `ListPage.ProcessCsv` is proved equal to it |
| ListPage.ProcessCsv | src/components/pages/List.jsx:125-166 | the parse-and-filter routine gives the error for a file without an email column, or the filter's three outputs |
| ListPage.ColumnsOfKept | src/components/pages/List.jsx:227-230 | when all rows share their keys, the shown columns of the kept rows are those keys without `id` |
| ListPage.ColumnsAfterImport | src/components/pages/List.jsx:227-230 | previewing a freshly imported list shows the same columns as the import did |
| ListPage.PersistAsWritten | src/components/pages/List.jsx:109-116 | the save effect as written: the lists are stored only when there is at least one; `ListPage.DeletedLastListReturns` shows the consequence |
| ListPage.LoadLists | src/components/pages/List.jsx:105-108 | the page starts with the stored lists, or none when nothing was stored |
| ListPage.DeletedLastListReturns | src/components/pages/List.jsx:109-116 | as written, deleting the only list is not stored, and a reload brings it back |
| ListPage.PersistReload | src/components/pages/List.jsx:109-116 | when every change is stored, a reload gives back the lists as last left; the code as written agrees while a list remains |
| ListPage.ListPage.constructor | src/components/pages/List.jsx:82-108 | the page mounts with the lists read back from storage (none when nothing was stored), storage as it was, nothing imported, no mode and the cell editor closed |
| ListPage.ListPage.ClearCsv | src/components/pages/List.jsx:198-207 | clearing drops the file, preview, headers, reports, name and mode, and keeps the saved lists |
| ListPage.ListPage.ImportFile | src/components/pages/List.jsx:192-197 | a file that is not CSV is refused; for a CSV the shown headers are set before the email check, and the page then holds the error or the kept rows and reports in mode New |
| ListPage.ListPage.ShowImport | src/components/pages/List.jsx:177-181 | the page shows the outcome of an import: the kept rows and both reports, or none after an error |
| ListPage.ListPage.CreateClick | src/components/pages/List.jsx:210 | "Create" opens the name prompt and changes nothing else |
| ListPage.ListPage.CancelNamePrompt | src/components/pages/List.jsx:653 | "Cancel" in the name prompt closes it and changes nothing else, the typed name included |
| ListPage.ListPage.TypeListName | src/components/pages/List.jsx:644-647 | typing sets the list name and nothing else |
| ListPage.ListPage.SaveList | src/components/pages/List.jsx:211-222 | a blank name saves nothing; otherwise the list (name, rows, reports) is appended, storage is written by the save effect and the page is cleared |
| ListPage.ListPage.PreviewList | src/components/pages/List.jsx:223-237 | previewing shows the chosen list's rows, columns and reports in mode Preview |
| ListPage.ListPage.EditList | src/components/pages/List.jsx:238-249 | editing loads the chosen list's name, rows and columns in mode Edit and keeps the current reports |
| ListPage.ListPage.DeleteList | src/components/pages/List.jsx:250-269 | an unconfirmed delete changes nothing; a confirmed one removes that list, passes the new lists to the save effect as written (so deleting the last list leaves storage as it was) and clears the page |
| ListPage.ListPage.Cancel | src/components/pages/List.jsx:270-273 | cancelling clears the page and the edited index and keeps the saved lists |
| ListPage.ListPage.SaveChanges | src/components/pages/List.jsx:274-281 | a blank name saves nothing; otherwise the edited list at its index takes the new name and rows without reports, the others stay, storage is written by the save effect, and the page is cleared |
| ListPage.ListPage.CellClick | src/components/pages/List.jsx:284-287 | in New or Edit mode a click opens the editor on that cell with its value; in other modes it does nothing |
| ListPage.ListPage.TypeCellValue | src/components/pages/List.jsx:579-587 | typing changes only the value being edited |
| ListPage.ListPage.CancelCell | src/components/pages/List.jsx:592-594 | cancelling closes the cell editor and leaves the rows as they were |
| ListPage.ListPage.CellUpdate | src/components/pages/List.jsx:294-302 | the edited cell takes the new value; every other cell and every other row stays, and the editor closes |
| Template.Lookup | src/components/pages/MailHandler.jsx:140 | `map[key] \|\| ""`: the merge field of that name, or "" for any other key |
| Template.Fill | src/components/pages/MailHandler.jsx:139-140 | `tmpl.replace(/{{(.*?)}}/g, …)`, left to right; the `Template.Fill…` lemmas state its behaviour on plain text and on known and unknown placeholders |
| Template.FindClose | src/components/pages/MailHandler.jsx:140 | the lazy match ends at the first `}}` with no line terminator before it, and finds none exactly when every `}}` has one before it |
| Template.FillWithoutPlaceholders | src/components/pages/MailHandler.jsx:139-140 | a template with no `{{` followed by `}}` is unchanged by the merge |
| Template.FillPlainPrefix | src/components/pages/MailHandler.jsx:139-140 | text without `{` in front of the rest is copied as it is |
| Template.FindCloseAfterKey | src/components/pages/MailHandler.jsx:140 | a key without `}` or line terminators is read whole up to its `}}` |
| Template.FillPlaceholder | src/components/pages/MailHandler.jsx:140 | a placeholder is replaced by the value of its key, and the merge carries on right after it |
| Template.FillUnknownKey | src/components/pages/MailHandler.jsx:140 | a placeholder whose key is none of the three merge fields is replaced by nothing |
| Template.FillPlain | src/components/pages/MailHandler.jsx:139-140 | text without `{` comes back unchanged |
| Template.FillTextThenPlaceholder | src/components/pages/MailHandler.jsx:140 | plain text and then a placeholder: the text is kept and the placeholder replaced |
| Template.FillTextThenUnknownKey | src/components/pages/MailHandler.jsx:140 | plain text and then an unknown placeholder: the placeholder is dropped |
| Template.FillTextEndingInUnknownKey | src/components/pages/MailHandler.jsx:140 | plain text ending in an unknown placeholder merges to the text alone |
| MailTemplates.WelcomeGreeting | src/components/pages/MailHandler.jsx:15-21 | the welcome email greets the mapped first name and is otherwise the fixed text |
| MailTemplates.ResetLinkDropped | src/components/pages/MailHandler.jsx:28-33 | the password-reset email always goes out without a reset link |
| MailTemplates.HiringSubjectWithoutCompany | src/components/pages/MailHandler.jsx:34-37 | the hiring subject never names a company |
| MailHandler.EmailCheck | src/components/pages/MailHandler.jsx:73 | a direct search for `/^\S+@\S+\.\S+$/`; `MailHandler.EmailCheckMatches` proves it accepts exactly the matching strings |
| MailHandler.EmailCheckMatches | src/components/pages/MailHandler.jsx:71-77 | the search accepts exactly the strings matching `^\S+@\S+\.\S+$` |
| MailHandler.AllRowsMatch | src/components/pages/MailHandler.jsx:71-77 | every row passing the search is the same as every row matching the pattern |
| Base.FindIndexSpec | src/components/pages/MailHandler.jsx:73-75 | `find` returns the first row that fails the test, and returns none exactly when no row fails |
| MailHandler.ValidateEmailSelection | src/components/pages/MailHandler.jsx:60-88 | the selection is valid exactly when an email column is mapped and every row's trimmed value under it matches the pattern |
| MailHandler.MergeFields | src/components/pages/MailHandler.jsx:145-149 | the `mapped` object: each mapped column's value in the row or "", and "" for an unmapped last name |
| MailHandler.Compose | src/components/pages/MailHandler.jsx:144-153 | one outgoing email: the row's address, with subject and body filled from that row |
| MailHandler.Outbox | src/components/pages/MailHandler.jsx:143-153 | a send produces one email per row, in row order, each merged from its own row |
| MailHandler.OutboxAddressesValid | src/components/pages/MailHandler.jsx:128-149 | after a passing validation, every email goes to an address that matches the pattern once trimmed |
| MailHandler.Percent | src/components/pages/MailHandler.jsx:173-174 | the percentage is the nearest whole number to `current/total*100`, and 0 for an empty list |
| MailHandler.PercentBounds | src/components/pages/MailHandler.jsx:173-174 | during a send the percentage stays within 0..100 and reaches 100 at the end |
| MailHandler.PercentMonotone | src/components/pages/MailHandler.jsx:161-174 | the percentage never goes down as rows are processed |
| MailHandler.MailSession.constructor | src/components/pages/MailHandler.jsx:42-59 | the page starts with the stored lists and no selection, template, mapping, headers or progress |
| MailHandler.MailSession.FileSelect | src/components/pages/MailHandler.jsx:99-115 | choosing the selected list again changes nothing; another list offers every template, clears the template and the three mappings, keeps the progress index and the sending flag, and shows that list's columns |
| MailHandler.MailSession.SelectTemplate | src/components/pages/MailHandler.jsx:216-219 | choosing a template selects it and changes nothing else |
| MailHandler.MailSession.MapColumn | src/components/pages/MailHandler.jsx:264-292 | mapping one field to a column changes that field only |
| MailHandler.MailSession.Done | src/components/pages/MailHandler.jsx:394-399 | "Done" closes the progress overlay and keeps every other field, the counter included |
| MailHandler.MailSession.SendEmail | src/components/pages/MailHandler.jsx:118-171 | without a first-name or email mapping, or with an invalid address, nothing is sent; otherwise every row's email is sent in order and the progress reaches the row count |
| MailHandler.MailSession.Deliver | src/components/pages/MailHandler.jsx:143-163 | the send loop produces exactly the outbox of the rows and leaves the progress index at the row count |
| UserManagement.EditForm | src/components/pages/UserManagement.jsx:53-62 | the edit form holds the user's name, email and status and an empty password |
| UserManagement.RemoveUser | src/components/pages/UserManagement.jsx:69 | `users.filter(u => u.id !== id)`; `UserManagement.RemoveUserInOrder`, `UserManagement.RemoveUserMembers` and `UserManagement.RemoveUserCounts` pin it down |
| UserManagement.RemoveUserInOrder | src/components/pages/UserManagement.jsx:69 | deleting keeps the remaining users in their order |
| UserManagement.RemoveUserMembers | src/components/pages/UserManagement.jsx:69 | deleting keeps exactly the users with a different id |
| UserManagement.RemoveUserCounts | src/components/pages/UserManagement.jsx:69 | deleting keeps each user with a different id as many times as it occurs, and no user with the deleted id |
| UserManagement.RemoveAbsentUser | src/components/pages/UserManagement.jsx:69 | deleting an id that no user has changes nothing |
| UserManagement.UpdateUser | src/components/pages/UserManagement.jsx:83-94 | saving an edit changes the name, email and status of the users with that id, keeps their id, role and password, and keeps every other user |
| UserManagement.UpdateUserIdempotent | src/components/pages/UserManagement.jsx:83-94 | saving the same form twice equals saving it once, and saving never changes ids or roles |
| UserManagement.NewUser | src/components/pages/UserManagement.jsx:104 | a created user gets the given time as id, the role "User" and the typed password, and reopening it shows the typed fields |
| UserManagement.PrependLog | src/components/pages/UserManagement.jsx:70-77 | a log entry numbered one past the log's length, put in front; `UserManagement.PrependLogKeepsIds` states the numbering it keeps |
| UserManagement.InitialLogsExact | src/components/pages/UserManagement.jsx:21-24 | the fetched log is numbered 1..n |
| UserManagement.PrependLogKeepsIds | src/components/pages/UserManagement.jsx:70-77 | a new entry at the front keeps the log numbered 1..n, with every earlier entry unchanged behind it |
| UserManagement.UserAdmin.constructor | src/components/pages/UserManagement.jsx:27-40 | the page starts with empty tables, both modals closed and the empty form |
| UserManagement.UserAdmin.Load | src/components/pages/UserManagement.jsx:41-46 | mounting loads the fixed users and logs |
| UserManagement.UserAdmin.OpenCreate | src/components/pages/UserManagement.jsx:48-52 | "Add" opens the modal on the empty form with no user being edited |
| UserManagement.UserAdmin.OpenEdit | src/components/pages/UserManagement.jsx:53-62 | "Edit" opens the modal on that user's fields |
| UserManagement.UserAdmin.OpenDelete | src/components/pages/UserManagement.jsx:63-66 | "Delete" records that user and opens the confirmation |
| UserManagement.UserAdmin.EditField | src/components/pages/UserManagement.jsx:251-282 | typing changes only that field of the form |
| UserManagement.UserAdmin.CancelEdit | src/components/pages/UserManagement.jsx:289-291 | cancelling closes the user modal |
| UserManagement.UserAdmin.CancelDelete | src/components/pages/UserManagement.jsx:323 | cancelling closes the delete dialog |
| UserManagement.UserAdmin.HandleDelete | src/components/pages/UserManagement.jsx:67-80 | with no pending user nothing changes; otherwise that id's users are removed, "Deleted user <name>" is logged and the dialog is closed and cleared |
| UserManagement.UserAdmin.HandleSave | src/components/pages/UserManagement.jsx:81-116 | an edit updates that user and logs "Updated user <name>"; a create puts the new user first and logs "Created user <name>"; the modal closes |
| NavbarLink.FilterLinks | src/components/navSection/NavbarLink.jsx:16-21 | the role filter of the links; `NavbarLink.FilterLinksInOrder`, `NavbarLink.FilterLinksMembers` and `NavbarLink.FilterLinksCounts` pin it down |
| NavbarLink.FilterLinksInOrder | src/components/navSection/NavbarLink.jsx:16-21 | the shown links keep their order |
| NavbarLink.FilterLinksMembers | src/components/navSection/NavbarLink.jsx:16-21 | a link is shown exactly when it has no role list or the user's role is on it |
| NavbarLink.FilterLinksCounts | src/components/navSection/NavbarLink.jsx:16-21 | each allowed link is shown as many times as it occurs in the link list, and no other link is shown |
| NavbarLink.LinksPerUser | src/components/navSection/NavbarLink.jsx:8-21 | the admin sees every link; anyone else sees all but "UserManagement" |
| NavbarLink.ActiveLink | src/components/navSection/NavbarLink.jsx:30-34 | at most one link is highlighted at any path |

## Left out

- Browser storage: the JSON round trip is the identity. The List page holds the stored value as
  its `store` field: its constructor loads from it with `ListPage.LoadLists`, and each change of
  the lists writes it with `ListPage.PersistAsWritten`, the save effect as written. The other
  pages receive the stored lists in their constructors.
- The file picker and `file.text()`: the file's text and whether its MIME type is `text/csv`
  are parameters of `ListPage.ListPage.ImportFile`.
- Dialogs, alerts and console output (SweetAlert, `alert`, `console.log`): the confirmation
  of a delete is a `confirmed` parameter, and messages are outcomes or dropped.
- Timers: the processing animation (`simulateProgress`, `isProcessing`, `progress`,
  `processingStep`) and the 100 ms delay per email are left out. Only their effect on the state
  is modelled.
- The ordering of asynchronous work: each handler runs to completion as one step.
- `Date.now()` and `new Date().toISOString()`: these are parameters. Ids made from the clock
  may collide, and the model does not assume they are unique.
- Character handling: only ASCII `toLowerCase` is modelled, with no Unicode case mapping.
- JavaScript object key ordering: integer-like header names, which JavaScript lists first, are
  not modelled. Rows keep the file's header order.
- MailHandler.Percent: computed as exact rational rounding, not through floating-point
  `Math.round`. The two agree except for floating-point rounding error at exact halves.
- Template.Lookup: inherited object-prototype keys, such as `{{constructor}}`, are treated like
  any other unknown key.
- ListPage.ListPage.CellClick: a missing cell opens the editor with "" rather than `undefined`.
- ListPage.ListPage: an `editingIndex` left stale after a delete is kept as it is, not
  re-indexed.
- MailHandler.MailSession: the page's tab layout is left out.
- UserManagement.UserAdmin: the tab switching between users and logs is left out, and so is the
  password input that is hidden while editing (display only).
- `NavbarMain.jsx`, the login, profile, settings and home pages, and the unused `CSVList`
  constant array are not part of this model.

## Findings

| source | as written | input that shows it | evidently intended | confidence | as-written member | corrected member |
|---|---|---|---|---|---|---|
| src/components/pages/List.jsx:109-116 | the save effect writes the lists only when there is at least one | store one list, delete it, reload the page | deleting the last list is stored, so it stays deleted after a reload | medium, not executed | ListPage.DeletedLastListReturns | ListPage.PersistReload |

The List page's handlers keep the save effect as written, so that they model the code; the
corrected effect is `ListPage.Persist`, whose reload property `ListPage.PersistReload` proves.
