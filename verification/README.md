# Cafe ordering client — a Dafny model

This project models the terminal client `Cafe` of a cafe ordering database
(USERS, MENU and ORDERS tables in Postgres). Under its prompts and its JDBC
plumbing, the client is a set of guarded table operations: look rows up,
test a row count, then insert, update or delete the matching rows. Nested
menu loops driven by integer choices reach these operations.

- `tables.dfy` (module `Tables`) gives the meaning of the statements the client
  sends. `Select` is `SELECT * … WHERE`. `UpdateWhere` is `UPDATE … SET … WHERE`.
  `ExecuteQuery` and `ExecuteQueryAndPrintResult` are the client's loops over
  the result cursor. Lemmas state what a query returns.
- `schema.dfy` (module `Schema`) holds one datatype per table row and `Db`,
  the three tables together. It also holds the WHERE predicates and SET
  assignments the client writes into its SQL; each one's contract says which
  rows it matches or which column it writes.
- `dialogue.dfy` (module `Dialogue`) holds what is typed at each menu level
  (one datatype per level) and how a submenu ends.
- `effects.dfy` (module `Effects`) gives, for each menu level, a function from
  the tables before it and what is typed at it to the tables after it. The
  properties the client promises are proved about these functions.
- `cafe.dfy` (module `CafeClient`) holds class `Cafe`. Its three fields are
  the tables, and its methods are the client's actions and menu loops. Each
  action's `ensures` gives the new state of the tables it touches. Each menu
  loop is proved to leave exactly the tables that the matching function of
  `Effects` gives, and its other `ensures` follow from the lemmas about that
  function.
- `properties.dfy` (module `Properties`) holds lemmas about the tables that
  relate several statements. Examples: searching after an add or a delete,
  credentials after the profile editor changes them, and the paid check.
- `scenarios.dfy` (module `Scenarios`) states runs of the client on small
  concrete tables. What each run ends with is proved from the contracts of
  the operations alone.

Inputs typed at the terminal become parameters. Each menu level reads a
sequence of steps. A step is the integer choice typed at that level, plus the
lines that the chosen branch reads. A submenu reads its own steps, which the
step that enters it carries. The model reproduces the program's guards as
they are written, including three surprising ones, each proved:

- credentials that match no user at all still mark an order paid;
- the item editor's "Image URL" option writes the `type` column;
- an unrecognised role choice sets the target's type to the empty string.

Where the system's requirements ask for more than the code
does, the model follows the code:

- a menu delete has no existence check and no NotFound error;
- the paid flag is refused only to credentials of a Customer row, not
  granted only to Employees and Managers;
- the order editor's other fields are not updatable, because their
  statements are malformed;
- registration does not check for an existing login.

`UpdateOrder` is modelled as a single pass. Its outer loop
(java/src/Cafe.java:671) never starts a second iteration, because every path
out of the first one either breaks or clears the loop flag.

The two login gates are checked again on every pass of their menus. The
manager check clears its result at the top of each pass of the cafe menu
(java/src/Cafe.java:391), and the main menu clears the logged-in user at the
top of each of its passes (java/src/Cafe.java:258). So `Menu` changes MENU
only in a pass whose own login and password belong to a Manager row, and
`Session` enters the logged-in menu only in a pass whose own credentials
match a row.

## Model

| member | source | states |
|---|---|---|
| Tables.Select | java/src/Cafe.java:366 | a query returns only rows that match its WHERE clause, and no more rows than the table holds |
| Tables.UpdateWhere | java/src/Cafe.java:605 | an UPDATE keeps the number of rows, rewrites each matching row by its SET clause and keeps every other row as it was |
| Tables.ExecuteQuery | java/src/Cafe.java:175-190 | the returned row count is the number of rows the query selects |
| Tables.ExecuteQueryAndPrintResult | java/src/Cafe.java:96-128 | the rows shown are exactly the selected rows, and the returned count is how many were shown |
| Tables.SelectNonEmpty | java/src/Cafe.java:366-369 | a query returns at least one row exactly when some row matches its WHERE clause (the basis of every `> 0` and `< 1` test) |
| Tables.SelectNonEmptyEverywhere | java/src/Cafe.java:366-369 | the same, for every table at once, as the WHERE clauses below state it |
| Tables.SelectMultiplicity | java/src/Cafe.java:427 | a query keeps every matching row as many times as it occurs and drops every other row |
| Tables.SelectAppend | java/src/Cafe.java:421-422 | in the model, where an inserted row goes last, a query after the insert returns its old result followed by the new row if that row matches |
| Tables.SelectEveryRow | java/src/Cafe.java:427 | a WHERE clause that every row satisfies selects the whole table |
| Tables.UpdateWhereNoMatch | java/src/Cafe.java:605 | an UPDATE whose WHERE clause matches no row leaves the table unchanged |
| Schema.Credentials | java/src/Cafe.java:366 | `login = … AND password = …` (also the WHERE clause of the updates at 605-623) selects some row exactly when a row carries both values |
| Schema.CredentialsOfType | java/src/Cafe.java:505 | `login = … AND password = … AND type = …` (also at 628 and 717) selects some row exactly when a row carries all three values |
| Schema.LoginIs | java/src/Cafe.java:646 | `login = …` selects some row exactly when a row has that login |
| Schema.Named | java/src/Cafe.java:473 | `itemName = …` (also at 427, 529 and 549) selects some row exactly when a row has that name |
| Schema.OfType | java/src/Cafe.java:486 | `type = …` selects some MENU row exactly when a row has that type |
| Schema.OrderIdIs | java/src/Cafe.java:676 | `orderid = …` (also at 724) selects some row exactly when a row has that id |
| Schema.UnpaidOrderIdIs | java/src/Cafe.java:685 | `orderid = … AND paid = false` selects some row exactly when an unpaid row has that id |
| Schema.NotNamed | java/src/Cafe.java:427 | defines the rows `DELETE FROM MENU WHERE itemName = …` keeps: those with another name (see `Properties.DeleteRemovesExactly`) |
| Schema.SetLogin | java/src/Cafe.java:605 | `SET login` writes the login and keeps every other column |
| Schema.SetPhoneNum | java/src/Cafe.java:611 | `SET phoneNum` writes the phone number and keeps every other column |
| Schema.SetPassword | java/src/Cafe.java:617 | `SET password` writes the password and keeps every other column |
| Schema.SetFavItems | java/src/Cafe.java:623 | `SET favItems` writes the favourite items and keeps every other column |
| Schema.SetUserType | java/src/Cafe.java:646 | `SET type` on USERS writes the type and keeps every other column |
| Schema.SetItemName | java/src/Cafe.java:549 | `SET itemName` writes the name and keeps every other column |
| Schema.SetItemType | java/src/Cafe.java:573 | `SET type` on MENU (options 2 and 5, lines 555 and 573) writes the type and keeps every other column, the image URL included |
| Schema.SetPrice | java/src/Cafe.java:561 | `SET price` writes the price and keeps every other column |
| Schema.SetDescription | java/src/Cafe.java:567 | `SET description` writes the description and keeps every other column |
| Schema.MarkPaid | java/src/Cafe.java:724 | `SET paid = true` sets the flag and keeps every other column |
| Effects.RoleChoice | java/src/Cafe.java:639-645 | the role change writes Manager, Employee or Customer exactly for choices 1, 2 and 3, and the empty string for any other choice |
| Effects.ItemColumnEffect | java/src/Cafe.java:546-576 | one item-editor update keeps the number of rows, never changes an image URL and leaves rows with another name untouched |
| Effects.ItemEditsEffect | java/src/Cafe.java:521-584 | the item editor ends with 9, NotFound or end of input; it keeps the number of rows, never changes an image URL, and leaves untouched every row whose name was never entered |
| Effects.ItemEditsFirstNameMissing | java/src/Cafe.java:529-533 | a first name that matches no row ends the item editor with NotFound and no change |
| Effects.ModifyStepEffect | java/src/Cafe.java:410-432 | defines one pass of the modify-menu loop: append the typed item for 1, keep the rows with another name for 2, the item editor for 3, no change otherwise |
| Effects.ModifyStepsEffect | java/src/Cafe.java:401-436 | defines the modify-menu loop: its passes in order, up to the first 9 or the end of the steps |
| Effects.ModifyStepsOnlyByEdits | java/src/Cafe.java:401-436 | without an add, a delete or an item edit, the modify-menu loop leaves MENU as it was |
| Effects.CafeStepsEffect | java/src/Cafe.java:389-440 | defines the cafe menu: browsing changes nothing; choice 2 runs the modify-menu loop only when that pass's login and password match a Manager row; up to the first 9 |
| Effects.CafeStepsNeedManager | java/src/Cafe.java:391-403 | unless some pass types the login and password of a Manager row, the cafe menu leaves MENU as it was |
| Effects.ProfileOptionEffect | java/src/Cafe.java:602-655 | defines one pass of the profile editor: the UPDATE of options 1-4 on the rows with the entered credentials, or for 5 the role write on the target login when those credentials are a Manager's |
| Effects.ProfileStepsEffect | java/src/Cafe.java:593-657 | defines the profile editor: its passes in order, under the credentials entered once, up to the first 9 |
| Effects.ProfileEditedTransitive | java/src/Cafe.java:593-657 | successive passes of the profile editor, under the credentials entered once before its loop, compose into an allowed change of USERS |
| Effects.ProfileOptionEdits | java/src/Cafe.java:602-655 | every pass of the profile editor is an allowed change: no row added or removed; no change without matching credentials; no type change unless they are a Manager's; other rows keep all but their type; a written type is a role or empty |
| Effects.OwnRowsEdited | java/src/Cafe.java:603-623 | an update of the rows with the entered credentials that keeps the type column (options 1-4) is an allowed change |
| Effects.ProfileStepsEdited | java/src/Cafe.java:586-663 | the whole profile editor, however many passes it makes, is an allowed change of USERS |
| Effects.PaidOnlyRisesTransitive | java/src/Cafe.java:724 | ORDERS changes that only set paid flags compose across successive actions |
| Effects.PaidAttemptEffect | java/src/Cafe.java:712-728 | a paid attempt with a Customer's credentials changes nothing; with any other credentials, unknown ones included, every row of the order ends paid; only paid flags rise, and only on this order |
| Effects.OrderEditsEffect | java/src/Cafe.java:687-745 | the order editor's passes end with 9, end of input or a rejected statement; only paid flags rise, and only on this order |
| Effects.OrderEffect | java/src/Cafe.java:667-755 | NotFound iff no row has the id, AlreadyPaid iff rows exist and all are paid, and then nothing changes; only paid flags of this order rise |
| Effects.PaidAttemptPays | java/src/Cafe.java:712-728 | a paid attempt by a Manager, an Employee or unknown credentials marks the order paid when no earlier pass ended the editor |
| Effects.OrderChangeNeedsNonCustomer | java/src/Cafe.java:687-745 | ORDERS changes only if some pass was a paid attempt whose credentials are not a Customer's |
| Effects.UserStepEffect | java/src/Cafe.java:276-283 | defines one pass of the logged-in menu: the cafe menu for 1, the profile editor for 2, nothing for 3, the order editor for 4 |
| Effects.UserStepsEffect | java/src/Cafe.java:265-285 | defines the logged-in menu: its passes in order, up to the first 9 |
| Effects.UserStepChanges | java/src/Cafe.java:276-283 | one pass of the logged-in menu adds or removes no USERS row, and ORDERS only gains paid flags |
| Effects.UserStepsChanges | java/src/Cafe.java:265-285 | the same for the whole logged-in menu |
| Effects.MainStepEffect | java/src/Cafe.java:257-284 | defines one pass of the main menu: registration for 1; for 2 the logged-in menu when the login and password match a row; nothing otherwise |
| Effects.SessionEffect | java/src/Cafe.java:250-286 | defines the main loop: its passes in order, up to the first 9 |
| Effects.SessionLogins | java/src/Cafe.java:258-264 | defines the logins of a run: the choice-2 passes, before the first 9, whose login and password match a USERS row as the earlier passes left it |
| Effects.MainStepChanges | java/src/Cafe.java:257-284 | one pass of the main menu never shrinks USERS, and ORDERS only gains paid flags |
| Effects.SessionChanges | java/src/Cafe.java:250-286 | the same for a whole run of the client |
| Effects.SessionUnfold | java/src/Cafe.java:250-286 | a run that does not start with 9 is its first pass followed by the rest, for the tables and for the logins |
| Effects.SessionPrefixStep | java/src/Cafe.java:250-286 | the passes before k + 1 of a run are its first pass followed by the first k passes of the rest |
| Effects.SessionLoginsRegistered | java/src/Cafe.java:258-264 | every login of a run was typed at some choice-2 pass k with a password that matched a USERS row of the tables as the passes before k left them |
| Effects.CustomersAddedTransitive | java/src/Cafe.java:345 | registrations in succession only add Customer rows with no favourite items at the end of USERS |
| Effects.SessionNeedsLogin | java/src/Cafe.java:250-286 | a run with no login leaves MENU and ORDERS unchanged, and USERS only gains Customer rows with no favourite items at its end |
| CafeClient.Cafe.constructor | java/src/Cafe.java:51-67 | the client starts attached to the given USERS, MENU and ORDERS tables |
| CafeClient.Cafe.CreateUser | java/src/Cafe.java:333-352 | USERS gains exactly one row: the entered login, password and phone, type Customer, no favourite items; no other row or table changes |
| CafeClient.Cafe.LogIn | java/src/Cafe.java:359-375 | returns the entered login iff some USERS row matches both login and password, otherwise nothing; reads only |
| CafeClient.Cafe.ManagerLogin | java/src/Cafe.java:496-519 | returns the entered login iff some USERS row matches login, password and type Manager; reads only |
| CafeClient.Cafe.EnterItemName | java/src/Cafe.java:469-480 | shows the MENU rows with the entered name |
| CafeClient.Cafe.EnterItemType | java/src/Cafe.java:482-493 | shows the MENU rows of the entered type |
| CafeClient.Cafe.ItemMenu | java/src/Cafe.java:446-467 | the loop stops at the first choice 9 or when input ends; choices 1 and 2 show the name or type search, any other choice shows nothing and stays; no table changes |
| CafeClient.Cafe.Browse | java/src/Cafe.java:457-461 | one pass of the browsing switch: the name search for choice 1, the type search for choice 2, nothing for any other choice |
| CafeClient.Cafe.AddItem | java/src/Cafe.java:411-424 | MENU gains one row built from the five entered values; nothing else changes |
| CafeClient.Cafe.DeleteItem | java/src/Cafe.java:425-430 | MENU keeps exactly its rows with another name, with no existence check; USERS and ORDERS are unchanged |
| CafeClient.Cafe.UpdateItem | java/src/Cafe.java:521-584 | MENU and the ending are those `ItemEditsEffect` gives; so a first name that matches no row ends the editor with NotFound and no change, no row is added or removed, no image URL changes, and rows whose name was never entered are untouched |
| CafeClient.Cafe.UpdateItemColumn | java/src/Cafe.java:546-576 | MENU is what `ItemColumnEffect` gives: one UPDATE on the rows with the name; options 1-4 set name, type, price and description; option 5 sets type; other choices change nothing |
| CafeClient.Cafe.ModifyMenu | java/src/Cafe.java:401-436 | MENU ends as `ModifyStepsEffect` gives for the passes up to the first 9; USERS and ORDERS are unchanged |
| CafeClient.Cafe.ModifyPass | java/src/Cafe.java:410-432 | one pass: add for 1, delete for 2, the item editor for 3, leave for 9, nothing otherwise |
| CafeClient.Cafe.Menu | java/src/Cafe.java:379-443 | MENU ends as `CafeStepsEffect` gives; every (login, password) that passed the manager check belongs to a Manager row; MENU changes only after such a pass; with no Manager row MENU cannot change |
| CafeClient.Cafe.CafePass | java/src/Cafe.java:391-434 | one pass: the manager check succeeds exactly for a Manager row's login and password, and only then does the modify-menu loop run |
| CafeClient.Cafe.UpdateProfile | java/src/Cafe.java:586-663 | USERS ends as `ProfileStepsEffect` gives; with credentials that match no row nothing changes; unless they match a Manager row no type changes; rows without those credentials keep every column but type; any type written is a role or the empty string |
| CafeClient.Cafe.ProfileEditor | java/src/Cafe.java:593-657 | the editor's loop leaves USERS as `ProfileStepsEffect` gives for the passes up to the first 9 |
| CafeClient.Cafe.ProfilePass | java/src/Cafe.java:601-656 | one pass: leave for 9, otherwise USERS becomes what `ProfileOptionEffect` gives |
| CafeClient.Cafe.ProfileOption | java/src/Cafe.java:602-655 | options 1-4 run one UPDATE of login, phone, password or favourite items on the rows with the entered credentials; option 5 sets the target login's type to the chosen role only when the credentials belong to a Manager row; otherwise nothing changes |
| CafeClient.Cafe.UpdateOrder | java/src/Cafe.java:667-755 | ORDERS and the ending are those `OrderEffect` gives: NotFound iff no row has the id, AlreadyPaid iff rows exist and all are paid, and then nothing changes; only paid flags of this order rise; a change needs a paid attempt whose credentials are not a Customer's; such an attempt first on an unpaid order marks it paid |
| CafeClient.Cafe.OrderEdits | java/src/Cafe.java:687-745 | the editor's loop leaves ORDERS and the ending as `OrderEditsEffect` gives |
| CafeClient.Cafe.MarkPaidUnlessCustomer | java/src/Cafe.java:712-728 | with credentials of a Customer row ORDERS is unchanged; with any other credentials, unknown ones included, every row of the order is marked paid and nothing else changes |
| CafeClient.Cafe.UserMenu | java/src/Cafe.java:265-285 | the three tables end as `UserStepsEffect` gives; no USERS row is added or removed, and ORDERS only gains paid flags |
| CafeClient.Cafe.Session | java/src/Cafe.java:250-286 | the three tables end as `SessionEffect` gives and `sessions` is exactly `SessionLogins`; each session's login was typed at some choice-2 pass with a password that matched a USERS row as the earlier passes left it; without a session MENU and ORDERS are unchanged and USERS only gains Customer rows at its end; ORDERS only ever gains paid flags |
| CafeClient.Cafe.MainLoop | java/src/Cafe.java:250-286 | the loop leaves the tables as `SessionEffect` gives and collects exactly the logins `SessionLogins` gives |
| CafeClient.Cafe.RunPass | java/src/Cafe.java:257-284 | one pass within a run keeps what the run leaves from the passes still to come, or, after 9, ends with the tables and logins of the whole run |
| CafeClient.Cafe.MainPass | java/src/Cafe.java:257-284 | one pass: 1 registers, 2 enters the logged-in menu exactly when the login and password match a row, 9 leaves; without a login only Customer rows are added |
| Properties.RegisteredUserCanLogIn | java/src/Cafe.java:342-347 | after registration, the entered login and password pass the login check |
| Properties.AddThenSearch | java/src/Cafe.java:421-422 | in the model, where an add goes last, a name search after an add returns the earlier matches followed by the added row |
| Properties.AddThenSearchUnique | java/src/Cafe.java:473 | when no row had the name, the search after the add returns exactly the added row |
| Properties.DeleteRemovesExactly | java/src/Cafe.java:427 | after a delete, a row with the deleted name occurs zero times and every other row occurs as often as before |
| Properties.DeletedNameNotFound | java/src/Cafe.java:427-428 | a name search after deleting that name finds nothing |
| Properties.DeleteMissingNameIsNoOp | java/src/Cafe.java:425-429 | deleting a name that no row has leaves MENU unchanged |
| Properties.ChangedLoginLocksOut | java/src/Cafe.java:603-608 | once option 1 sets a different login, the credentials entered at the start match no row, so any later profile update is a no-op |
| Properties.ChangedPasswordLocksOut | java/src/Cafe.java:615-620 | the same after option 3 sets a different password |
| Properties.UnknownRoleClearsType | java/src/Cafe.java:639-647 | an unrecognised role choice sets the type of every row with the target login to the empty string |
| Properties.UnknownCredentialsPassPaidCheck | java/src/Cafe.java:717-719 | credentials that match no user give a zero Customer count, so the paid update goes through |
| Properties.PaidCheckRefusesOnlyCustomers | java/src/Cafe.java:717-722 | the paid check refuses exactly the credentials of a Customer row |
| Scenarios.RegisterThenLogIn | java/src/Cafe.java:359-370 | a newly registered user passes the login check with the right password and fails with a wrong one |
| Scenarios.StrangerMarksOrderPaid | java/src/Cafe.java:712-728 | the owning Customer cannot mark the order paid, a stranger can, and the order editor then stops at the paid check |
| Scenarios.ImageUrlOptionWritesType | java/src/Cafe.java:571-576 | option 5 with a new URL changes the item's type and leaves its image URL as it was |
| Scenarios.CustomerCannotModifyMenu | java/src/Cafe.java:396-403 | with only Customer rows in USERS, nothing typed at the cafe menu changes MENU |

## Left out

- The JDBC connection, its URL and driver loading, `cleanup` and the unused `getCurrSeqVal` are not modelled. They are foreign-library I/O; the constructor only attaches the tables.
- Prompts, messages and the tab-separated rendering of results are left out. Displayed rows are returned as values instead. The rows shown after a role change (java/src/Cafe.java:649-651) are not returned.
- `readChoice`'s parse-and-retry loop is left out: choices arrive as integers. At the end of input, `readChoice` would retry forever; the model instead ends the menu level when its steps run out.
- A submenu reads its own sequence of steps, and any steps left when it exits are dropped. Any single stream of typed input can be split this way, so no behaviour is lost.
- SQL text construction is left out: values go straight into rows. Quoting, injection and Postgres's conversion of quoted literals are not modelled. Prices are kept as the entered text, and order ids as integers.
- UpdateOrder: options 1, 2, 4 and 5 send an UPDATE with no WHERE keyword. They are modelled as a rejected statement that changes nothing and ends the editor; SQL parsing is not modelled.
- UpdateOrder: option 3 sends its UPDATE through the row-counting query call. Only the table effect is modelled, and the loop goes on as written. If the driver raised an error there instead, the tables would end the same: option 3 is the only option that writes, and repeating it changes nothing.
- Exceptions from the store are not modelled: failed connections, constraint violations from an unseen schema (such as a duplicate login), and errors caught in `LogIn` or `ManagerLogin`.
- `PlaceOrder` (java/src/Cafe.java:665) has an empty body. Choice 3 of the logged-in menu therefore does nothing.
- `executeQueryAndReturnResult` and `Greeting` are not used by any modelled operation.
- The core does not enforce unique logins or item names, or non-negative prices. The model does not add them.
- Row order is the model's choice. SQL tables and query results are bags, and the client sends no ORDER BY; the model keeps rows in a sequence, adds an inserted row at the end, keeps an updated row in its place and returns query results in that sequence's order. Statements about order (`Tables.SelectAppend`, `Properties.AddThenSearch`) hold of the model, not of Postgres; their statements about which rows, and how many of each, hold either way.
- The number of steps each menu loop reads is not returned. The functions of `Effects` define where each loop stops: at the first choice 9, or at the end of its steps, or (for the item and order editors) at a NotFound or a rejected statement.
