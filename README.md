# PizzaStore: users table and menu filtering, in Dafny

This project models the two parts of the PizzaStore command-line client
(`PizzaStore.java`) that make decisions. Both read or write a Postgres database.

- **Users.** `CreateUser` registers a customer. `LogIn` checks a login and
  password. `viewProfile` looks up a login. `updateProfile` reads the role of
  a login typed at a prompt. A manager may then overwrite one of five columns
  of any login named as the target. Anyone else may overwrite one of three
  columns of the login typed.
- **Catalog.** `viewMenu` lists the Items table. If the customer asks for a
  filter, it runs one filtered SELECT: by a price ceiling, by item type, or
  by both. The SELECT has an optional ORDER BY price, and an empty result gets
  its own message.

The database is replaced by values. The users table is a `map` from login to
row, held in the `Users.Database` class; the operations that change it are
methods with `modifies` clauses. The catalog is a `seq<Item>` that nothing in
the model changes. Each SQL statement is modelled by its meaning:

- `Users.Inserted` is an INSERT.
- `Users.Updated` is an UPDATE of one column.
- `Catalog.Select` is a WHERE.
- `Catalog.Admissible` is what an ORDER BY allows.

The connection is the constant `Database.connected`, or the `connected`
parameter of `Catalog.ViewMenu`. When it is false, every statement fails, and
each operation takes the path of its `catch` block.

Files:

- `wrappers.dfy`: `Option`.
- `text.dfy`: the string handling. Java's `trim` removes every character up
  to U+0020; SQL `TRIM` removes spaces only. Java's `equalsIgnoreCase`;
  SQL `LOWER`.
- `users.dfy`: the users table and the four user operations.
- `catalog.dfy`: items, filters, ordering and `viewMenu`.

## What the code does

- **Who is a manager.** `updateProfile` decides this from the login typed at
  its first prompt, not from the logged-in session. `authorisedUser` is never
  passed to it. So anyone who types a manager's login gets the manager menu
  (`Users.ManagerGate`).
- **Whose record a non-manager changes.** A non-manager changes the row of
  whatever login they typed, which need not be their own
  (`Users.NonManagerGate`).
- **Unknown login.** An update of a login that does not exist matches no row.
  It changes nothing and reports nothing; there is no "not found" message.
- **Refused choice.** A choice the menu does not offer prints
  "Invalid choice". There is no separate "unauthorized" outcome.

## Model

| member | source | states |
|---|---|---|
| `Text.TrimStartShape` | cs166_project_phase3/java/src/PizzaStore.java:450 | trimming the start removes exactly a prefix of pad characters and stops at the first character that is not one |
| `Text.TrimEndShape` | cs166_project_phase3/java/src/PizzaStore.java:450 | trimming the end removes exactly a suffix of pad characters and stops at the last character that is not one |
| `Text.TrimOfAllPad` | cs166_project_phase3/java/src/PizzaStore.java:450 | a string made only of pad characters trims to the empty string |
| `Text.TrimIgnoresPadding` | cs166_project_phase3/java/src/PizzaStore.java:618 | pad characters added at either end do not change the trimmed string |
| `Text.ToLower` | cs166_project_phase3/java/src/PizzaStore.java:625 | LOWER keeps the length and lower-cases each character in place |
| `Text.TrimCommutesWithLower` | cs166_project_phase3/java/src/PizzaStore.java:625 | trimming then lower-casing gives the same string as lower-casing then trimming |
| `Text.EqualsIgnoreCaseIsLowerEquality` | cs166_project_phase3/java/src/PizzaStore.java:451 | Java's character-by-character equalsIgnoreCase holds exactly when the lower-cased strings are equal |
| `Text.Trim` | cs166_project_phase3/java/src/PizzaStore.java:450 | the trimmed string is no longer than the input, starts and ends with a character that is not a pad, and is empty exactly when the input was made only of pads |
| `Text.EqualsIgnoreCase` | cs166_project_phase3/java/src/PizzaStore.java:450-451 | two strings are equal ignoring case exactly when they have the same length and their characters agree after lower-casing |
| `Users.WithColumn` | cs166_project_phase3/java/src/PizzaStore.java:474-502 | after SET c = v the row's column c holds v, and every other column keeps its value |
| `Users.Inserted` | cs166_project_phase3/java/src/PizzaStore.java:369-371 | the INSERT fails exactly when the login is taken. Otherwise the new table has the old logins plus the new one, files the new row under it, and keeps every old row |
| `Users.Updated` | cs166_project_phase3/java/src/PizzaStore.java:474-503 | the UPDATE fails exactly when it renames a row onto another row's login. A missing target leaves the table as it was, and no row other than the target changes |
| `Users.InsertedKeepsOthers` | cs166_project_phase3/java/src/PizzaStore.java:369-371 | inserting a new login adds exactly that key, keeps the table keyed by login, and changes no other row |
| `Users.UpdatedKeepsValid` | cs166_project_phase3/java/src/PizzaStore.java:470-509 | every UPDATE the profile menu sends keeps each row filed under its own login |
| `Users.UpdateChangesOneColumn` | cs166_project_phase3/java/src/PizzaStore.java:474-489 | an UPDATE of phone, password, favorite items or role always succeeds and keeps the set of logins. No other row changes. In the target row only that column changes, and it now holds the new value |
| `Users.UpdateRenames` | cs166_project_phase3/java/src/PizzaStore.java:492-497 | renaming fails exactly when the new login belongs to another row. Otherwise the row moves to the new key with its other columns unchanged, and no other row changes |
| `Users.UpdateIsIdempotent` | cs166_project_phase3/java/src/PizzaStore.java:474-540 | running the same one-column UPDATE a second time leaves the table as the first run left it |
| `Users.MatchingRows` | cs166_project_phase3/java/src/PizzaStore.java:394 | the log-in SELECT finds only keys of the table. In a table keyed by login it finds exactly the typed login when that login's password matches, and nothing otherwise |
| `Users.MatchingRowsFound` | cs166_project_phase3/java/src/PizzaStore.java:394-397 | the log-in SELECT returns at least one row exactly when the login exists and its stored password equals the one typed |
| `Users.IsManager` | cs166_project_phase3/java/src/PizzaStore.java:446-454 | a login is a manager exactly when it has a row whose trimmed, lower-cased role is "manager". A missing login, or any other role, is not a manager |
| `Users.RoleDecidesManager` | cs166_project_phase3/java/src/PizzaStore.java:449-453 | a login whose stored role is "customer" is not a manager, and one whose stored role is "manager" is |
| `Users.RoleLiterals` | cs166_project_phase3/java/src/PizzaStore.java:449-453 | the role "customer" fails the manager test and the role "manager" passes it |
| `Users.RegisteredUserCanLogIn` | cs166_project_phase3/java/src/PizzaStore.java:369-371 | after registration, the new login authenticates with the password typed and is not a manager. Its favorite items are NULL, and no other login's authentication changes |
| `Users.Gate` | cs166_project_phase3/java/src/PizzaStore.java:456-545 | a choice is refused exactly when it lies outside 1 to 5 for a manager login, or outside 1 to 3 for any other. An accepted choice acts on the target typed for a manager and on the login typed otherwise, and picks the column the menu numbers |
| `Users.NonManagerGate` | cs166_project_phase3/java/src/PizzaStore.java:513-545 | for a login that is not a manager, only choices 1 to 3 are accepted. They pick phone number, password or favorite items of the login typed, and any other choice changes nothing |
| `Users.ManagerGate` | cs166_project_phase3/java/src/PizzaStore.java:456-509 | for a manager login, choices 1 to 5 are accepted and apply to the target login typed next. Choice 4 picks the login column and 5 the role column; any other choice changes nothing |
| `Users.ProfileUpdate` | cs166_project_phase3/java/src/PizzaStore.java:438-552 | a refused choice leaves the table unchanged, and no row other than the one the gate picked ever changes |
| `Users.SafeColumnsKeepManagers` | cs166_project_phase3/java/src/PizzaStore.java:521-540 | updating phone number, password or favorite items leaves every login's manager status as it was |
| `Users.NonManagerCannotEscalate` | cs166_project_phase3/java/src/PizzaStore.java:513-545 | a profile update made through a non-manager login never changes who is a manager |
| `Users.ProfileUpdateKeepsValid` | cs166_project_phase3/java/src/PizzaStore.java:438-552 | a profile update keeps the table keyed by login |
| `Users.ProfileUpdateIsIdempotent` | cs166_project_phase3/java/src/PizzaStore.java:438-552 | repeating a profile update with the same answers leaves the table as the first one left it. This holds even when the first update demoted or renamed the manager login that was typed |
| `Users.CustomerCannotSetRole` | cs166_project_phase3/java/src/PizzaStore.java:443-454 | a profile update typed at a login whose role is "customer" leaves the table unchanged when choice 5 (role) is picked, whatever target is named |
| `Users.ManagerSetsRole` | cs166_project_phase3/java/src/PizzaStore.java:443-509 | a profile update typed at a login whose role is "manager", with choice 5, sets the role of any existing target login to the value typed |
| `Users.Database.constructor` | cs166_project_phase3/java/src/PizzaStore.java:53-68 | the database starts from a table keyed by login, with the given connection state |
| `Users.Database.ExecuteInsert` | cs166_project_phase3/java/src/PizzaStore.java:369-371 | the INSERT succeeds exactly when connected and the login is new. On success the table is the old one plus the new row; on failure it is unchanged |
| `Users.Database.ExecuteUpdate` | cs166_project_phase3/java/src/PizzaStore.java:474-475 | the UPDATE succeeds exactly when connected and the key allows it. On success the table is the updated one; on failure it is unchanged |
| `Users.CreateUser` | cs166_project_phase3/java/src/PizzaStore.java:357-377 | a user is created exactly when connected and the login is new. The row is a customer with favoriteItems NULL and the given login, password and phone. Otherwise the table is unchanged |
| `Users.LogIn` | cs166_project_phase3/java/src/PizzaStore.java:384-409 | returns the login typed exactly when connected and the login and password match a row. Otherwise, including on failure, it returns null |
| `Users.ViewProfile` | cs166_project_phase3/java/src/PizzaStore.java:413-436 | reports failure exactly when not connected and "not found" exactly when the login has no row. Otherwise it shows that row's login, phone, role and favorite items, and not its password |
| `Users.RunUpdate` | cs166_project_phase3/java/src/PizzaStore.java:474-476 | one column UPDATE: applied exactly when the database accepts it, otherwise reported as failed with the table unchanged |
| `Users.UpdateProfile` | cs166_project_phase3/java/src/PizzaStore.java:438-552 | the new table is the gated update of the old one. The outcome is "Invalid choice" when the gate refuses the choice, a failure when the statement fails, and otherwise `Applied` naming the row and column the UPDATE addressed; when that login has no row, the table is unchanged although `Applied` is still reported. Without a connection it fails and changes nothing |
| `Catalog.TypeKey` | cs166_project_phase3/java/src/PizzaStore.java:625 | LOWER(TRIM(x)) equals TRIM(LOWER(x)), trims spaces only, and is empty exactly for a type made only of spaces |
| `Catalog.Keeps` | cs166_project_phase3/java/src/PizzaStore.java:596-598 | a row kept by a price ceiling is never priced above it. A row whose stored type is exactly the type asked for passes the type filter, and so does a blank stored type against a blank type asked for |
| `Catalog.Select` | cs166_project_phase3/java/src/PizzaStore.java:596-598 | a filtered SELECT returns no more rows than the table holds, and every row it returns passes the WHERE clause |
| `Catalog.SelectCounts` | cs166_project_phase3/java/src/PizzaStore.java:596-598 | a filtered SELECT returns each table row as often as it occurs if the WHERE clause holds of it, and never otherwise |
| `Catalog.Insert` | cs166_project_phase3/java/src/PizzaStore.java:596-597 | placing a row into a price-ordered sequence adds exactly that row and keeps the order |
| `Catalog.Sort` | cs166_project_phase3/java/src/PizzaStore.java:596-597 | ORDER BY price gives a permutation of its input, ordered in the requested direction |
| `Catalog.Query` | cs166_project_phase3/java/src/PizzaStore.java:595-599 | the query's answer holds exactly the filtered rows, in an order the ORDER BY allows |
| `Catalog.AdmissibleRows` | cs166_project_phase3/java/src/PizzaStore.java:599-604 | any allowed answer contains a row exactly when the table has it and the filter keeps it. It is empty exactly when no row is kept |
| `Catalog.PriceCeilingIsInclusive` | cs166_project_phase3/java/src/PizzaStore.java:596-598 | a row priced exactly at the maximum is selected, and every selected row is priced at or below it |
| `Catalog.PriceAndTypeIsBothFilters` | cs166_project_phase3/java/src/PizzaStore.java:656 | the combined filter selects the same rows, in the same order, as the price filter followed by the type filter |
| `Catalog.SortFor` | cs166_project_phase3/java/src/PizzaStore.java:596-597 | sort choice 1 asks for highest price first and 2 for lowest first. Any other choice sends no ORDER BY |
| `Catalog.FilterFor` | cs166_project_phase3/java/src/PizzaStore.java:585-645 | filter choices 1 to 3 pick a query and any other picks none. Choice 2 filters by type only. Every price filter uses the typed ceiling. The typed item type is Java-trimmed before it reaches the query: it starts and ends with no whitespace and is blank exactly when the typed text was |
| `Catalog.TypeQueryIgnoresPaddingAndCase` | cs166_project_phase3/java/src/PizzaStore.java:618-627 | two typed item types that agree after trimming and lower-casing select the same rows |
| `Catalog.PaddedLowerCaseTypeSelectsSameRows` | cs166_project_phase3/java/src/PizzaStore.java:618-627 | typing " pizza " or "Pizza" as the item type selects the same rows |
| `Catalog.StoredTypePaddingIgnored` | cs166_project_phase3/java/src/PizzaStore.java:625 | spaces around an item's stored type do not change whether the type filter keeps it |
| `Catalog.FilterStep` | cs166_project_phase3/java/src/PizzaStore.java:578-678 | a filter choice outside 1 to 3 runs no query. Otherwise the outcome is "no items found" exactly when no row passes the chosen filter, with the price-range message for choice 1 and the type message otherwise. A non-empty listing is an allowed answer to the chosen filter and order |
| `Catalog.AnswerYes` | cs166_project_phase3/java/src/PizzaStore.java:576-577 | the only answers that ask for filtering are "Y" and "y" |
| `Catalog.ViewMenu` | cs166_project_phase3/java/src/PizzaStore.java:554-685 | the menu fails exactly when the database cannot answer, and reports an empty menu exactly when the table is empty. Otherwise it lists the whole table. It runs the filter step exactly when the answer is "Y" or "y" |
| `Catalog.NoMatchIsNotAFailure` | cs166_project_phase3/java/src/PizzaStore.java:628-633 | a type filter that matches no row ends with the "no items found within that type" message, not with a failure |

## Left out

- Connection set-up, `cleanup`, `getCurrSeqVal` and the printing query helper are left out. They are calls into `java.sql`. The three statement helpers the core uses (`executeUpdate`, `executeQuery` and `executeQueryAndReturnResult`) are replaced by the in-memory table and the meaning of each statement.
- The `main` menu loops, `readChoice`, `Greeting`, the Scanner prompts and the loops that print rows are left out. Every typed value is a parameter, and each outcome is a datatype value instead of printed text.
- The SQL strings are not modelled. They are built by concatenating the input, so a typed quote character changes the statement. The model states the intended WHERE and SET clauses and assumes inputs contain no quote characters.
- Non-numeric input to `nextInt` raises an exception that ends in the operation's generic `catch`. This path is not modelled; choices and prices are integers.
- Connection failures are all-or-nothing: `connected` makes every statement of a call fail. A failure of only the second statement of `updateProfile` gives the same table and the same message, so it is not modelled separately. In `viewMenu` a failure of only the filtered SELECT comes after the full listing has been printed, so the program shows the listing followed by "Unable to view menu"; `Catalog.ViewMenu` has no outcome for that case.
- The schema is not part of this model. The users table is keyed by login, which is unique, so a login has at most one row. A duplicate INSERT, or a rename onto an existing login, is a storage failure that changes nothing.
- A NULL role is not modelled. It would make `trim()` throw and end in "Unable to update profile". No modelled statement ever stores a NULL role, so roles are plain strings.
- Prices are integers, matching the integer maximum price typed at the menu. Fractional prices are not modelled.
- Case folding covers the ASCII letters only. Java's `equalsIgnoreCase` and Postgres' `LOWER` (which depends on the locale) also fold other letters. For the words compared here ("manager", "Y") the ASCII rule agrees with Java.
- `Catalog.Query` chooses one allowed order: a stable insertion sort by price, or storage order when there is no ORDER BY. The properties about the menu's results are stated for every allowed answer (`Catalog.Admissible`), not only for this choice.
- The session login returned by `LogIn` is not an input to any modelled operation, because the source never passes it on. The stub operations (`placeOrder` to `updateUser`) have empty bodies and are not modelled.
