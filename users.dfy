/**
 * The users side of the store: the users table, registration, log-in,
 * profile viewing and the role-gated profile update.
 *
 * The database is an in-memory table keyed by login. Each statement the
 * program sends is modelled by what it means for that table; a statement
 * that the database refuses (a duplicate login) or cannot run (no
 * connection) leaves the table as it was.
 */
module Users {
  import opened Wrappers
  import opened Text

  /** One row of the users table; favoriteItems may be NULL. */
  datatype User = User(login: string, password: string, role: string, favoriteItems: Option<string>, phoneNum: string)

  /** The columns a profile update can overwrite. */
  datatype Column = PhoneNum | Password | FavoriteItems | Login | Role

  /** The users table, each row filed under its login. */
  type Table = map<string, User>

  /** login is the key: every row is filed under its own login. */
  predicate TableValid(users: Table)
  {
    forall k :: k in users ==> users[k].login == k
  }

  /** The value of one column of a row; None is SQL NULL. */
  function ColumnValue(u: User, c: Column): Option<string>
  {
    match c
    case PhoneNum => Some(u.phoneNum)
    case Password => Some(u.password)
    case FavoriteItems => u.favoriteItems
    case Login => Some(u.login)
    case Role => Some(u.role)
  }

  /** SET c = v on one row: column `c` holds `v` afterwards and every other column is as it was. */
  function WithColumn(u: User, c: Column, v: string): (r: User)
    ensures ColumnValue(r, c) == Some(v)
    ensures forall c' :: c' != c ==> ColumnValue(r, c') == ColumnValue(u, c')
  {
    match c
    case PhoneNum => u.(phoneNum := v)
    case Password => u.(password := v)
    case FavoriteItems => u.(favoriteItems := Some(v))
    case Login => u.(login := v)
    case Role => u.(role := v)
  }

  /** The row registration inserts: role 'customer' and favoriteItems NULL, whatever was typed. */
  function NewCustomer(login: string, password: string, phoneNum: string): User
  {
    User(login, password, "customer", None, phoneNum)
  }

  /**
   * INSERT INTO users: None when the login is already taken; otherwise the
   * row is filed under its login and every other row is kept.
   */
  function Inserted(users: Table, row: User): (r: Option<Table>)
    ensures r.None? <==> row.login in users
    ensures r.Some? ==>
      && r.value.Keys == users.Keys + {row.login}
      && r.value[row.login] == row
      && forall k :: k in users ==> r.value[k] == users[k]
  {
    if row.login in users then None else Some(users[row.login := row])
  }

  /**
   * UPDATE users SET c = v WHERE login = target. A missing target matches
   * no row and changes nothing; renaming a row onto a login that another
   * row holds violates the key and fails (None).
   */
  function Updated(users: Table, target: string, c: Column, v: string): (r: Option<Table>)
    ensures r.None? <==> target in users && c == Login && v != target && v in users
    ensures target !in users ==> r == Some(users)
    ensures r.Some? ==> forall k :: k in users && k != target ==> k in r.value && r.value[k] == users[k]
  {
    if target !in users then Some(users)
    else if c == Login && v != target && v in users then None
    else if c == Login then Some((users - {target})[v := WithColumn(users[target], c, v)])
    else Some(users[target := WithColumn(users[target], c, v)])
  }

  /** An insert files the new row under its login and keeps every other row. */
  lemma InsertedKeepsOthers(users: Table, row: User)
    requires TableValid(users) && row.login !in users
    ensures Inserted(users, row).Some?
    ensures TableValid(Inserted(users, row).value)
    ensures Inserted(users, row).value.Keys == users.Keys + {row.login}
    ensures forall k :: k in users ==> Inserted(users, row).value[k] == users[k]
  {
  }

  /** An update keeps the key invariant of the table. */
  lemma UpdatedKeepsValid(users: Table, target: string, c: Column, v: string)
    requires TableValid(users) && Updated(users, target, c, v).Some?
    ensures TableValid(Updated(users, target, c, v).value)
  {
  }

  /**
   * Any column other than login: the update succeeds, every other row is
   * untouched and, in the target row, column `c` holds `v` and every other
   * column is as it was.
   */
  lemma UpdateChangesOneColumn(users: Table, target: string, c: Column, v: string)
    requires TableValid(users) && c != Login
    ensures Updated(users, target, c, v).Some?
    ensures var m := Updated(users, target, c, v).value;
      && m.Keys == users.Keys
      && (forall k :: k in users && k != target ==> m[k] == users[k])
      && (target in users ==>
            && ColumnValue(m[target], c) == Some(v)
            && forall c' :: c' != c ==> ColumnValue(m[target], c') == ColumnValue(users[target], c'))
  {
  }

  /**
   * The login column: the row moves from `target` to `v` with every other
   * column as it was, and no other row changes; it fails exactly when `v`
   * is another row's login.
   */
  lemma UpdateRenames(users: Table, target: string, v: string)
    requires TableValid(users) && target in users
    ensures Updated(users, target, Login, v).None? <==> v != target && v in users
    ensures Updated(users, target, Login, v).Some? ==>
      var m := Updated(users, target, Login, v).value;
      && m.Keys == users.Keys - {target} + {v}
      && (forall k :: k in users && k != target ==> m[k] == users[k])
      && ColumnValue(m[v], Login) == Some(v)
      && forall c' :: c' != Login ==> ColumnValue(m[v], c') == ColumnValue(users[target], c')
  {
  }

  /** Setting a column to the value it was just set to changes nothing more. */
  lemma UpdateIsIdempotent(users: Table, target: string, c: Column, v: string)
    requires TableValid(users) && Updated(users, target, c, v).Some?
    ensures Updated(Updated(users, target, c, v).value, target, c, v) == Updated(users, target, c, v)
  {
    var m := Updated(users, target, c, v).value;
    if target in users {
      if c == Login && v == target {
        assert m == users by {
          assert WithColumn(users[target], c, v) == users[target];
        }
      } else if c != Login {
        assert WithColumn(m[target], c, v) == m[target];
        assert m[target := m[target]] == m;
      }
    }
  }

  /** Rows SELECT * FROM users WHERE login = l AND password = p returns, by key. */
  function MatchingRows(users: Table, login: string, password: string): (r: set<string>)
    ensures r <= users.Keys
    ensures TableValid(users) ==> r == if Authenticates(users, login, password) then {login} else {}
  {
    set k | k in users && users[k].login == login && users[k].password == password
  }

  /** The login exists and its password is exactly the one given. */
  predicate Authenticates(users: Table, login: string, password: string)
  {
    login in users && users[login].password == password
  }

  /** The log-in query finds a row exactly when the login's stored password is the one given. */
  lemma MatchingRowsFound(users: Table, login: string, password: string)
    requires TableValid(users)
    ensures |MatchingRows(users, login, password)| > 0 <==> Authenticates(users, login, password)
  {
    var rows := MatchingRows(users, login, password);
    if Authenticates(users, login, password) {
      assert login in rows;
    }
    if |rows| > 0 {
      var k :| k in rows;
    }
  }

  /** SELECT role FROM users WHERE login = l: the role of the first row found, if any. */
  function StoredRole(users: Table, login: string): Option<string>
  {
    if login in users then Some(users[login].role) else None
  }

  lemma LowerManager()
    ensures ToLower("manager") == "manager"
  {
  }

  /**
   * The manager test: a role row exists and, trimmed, equals "manager"
   * ignoring case. A login counts as a manager exactly when it has a row
   * whose trimmed, lower-cased role is "manager"; a missing login never does.
   */
  function IsManager(users: Table, login: string): (r: bool)
    ensures r <==> login in users && ToLower(Trim(JavaWhitespace, users[login].role)) == "manager"
  {
    match StoredRole(users, login)
    case None => false
    case Some(role) =>
      EqualsIgnoreCaseIsLowerEquality(Trim(JavaWhitespace, role), "manager");
      LowerManager();
      EqualsIgnoreCase(Trim(JavaWhitespace, role), "manager")
  }

  /** Whether a login is a manager depends only on its role column. */
  lemma IsManagerFollowsRole(users: Table, m: Table, login: string)
    requires (login in users <==> login in m)
    requires login in users ==> users[login].role == m[login].role
    ensures IsManager(users, login) == IsManager(m, login)
  {
  }

  /** The role registration stores does not pass the manager test; the role "manager" does. */
  lemma RoleLiterals()
    ensures !EqualsIgnoreCase(Trim(JavaWhitespace, "customer"), "manager")
    ensures EqualsIgnoreCase(Trim(JavaWhitespace, "manager"), "manager")
  {
    assert TrimStart(JavaWhitespace, "customer") == "customer";
    assert TrimEnd(JavaWhitespace, "customer") == "customer";
    assert TrimStart(JavaWhitespace, "manager") == "manager";
    assert TrimEnd(JavaWhitespace, "manager") == "manager";
  }

  /** A login whose role is "customer" is not a manager; one whose role is "manager" is. */
  lemma RoleDecidesManager(users: Table, l: string)
    requires l in users
    ensures users[l].role == "customer" ==> !IsManager(users, l)
    ensures users[l].role == "manager" ==> IsManager(users, l)
  {
    RoleLiterals();
    assert StoredRole(users, l) == Some(users[l].role);
  }

  /** A freshly registered user can log in with the password given, is not a manager, and no other row changes. */
  lemma RegisteredUserCanLogIn(users: Table, login: string, password: string, phoneNum: string)
    requires TableValid(users) && login !in users
    ensures var m := Inserted(users, NewCustomer(login, password, phoneNum)).value;
      && Authenticates(m, login, password)
      && !IsManager(m, login)
      && m[login].favoriteItems == None
      && forall l, p :: l != login ==> Authenticates(m, l, p) == Authenticates(users, l, p)
  {
    RoleLiterals();
  }

  /** The columns a manager may pick: 1 phone number, 2 password, 3 favorite items, 4 login, 5 role. */
  function ManagerColumn(choice: int): Option<Column>
  {
    if choice == 1 then Some(PhoneNum)
    else if choice == 2 then Some(Password)
    else if choice == 3 then Some(FavoriteItems)
    else if choice == 4 then Some(Login)
    else if choice == 5 then Some(Role)
    else None
  }

  /** The columns anyone else may pick: 1 phone number, 2 password, 3 favorite items. */
  function CustomerColumn(choice: int): Option<Column>
  {
    if 1 <= choice <= 3 then ManagerColumn(choice) else None
  }

  /**
   * Which row and column a menu choice overwrites, or None for "Invalid
   * choice". The manager test is made on the login typed at the prompt; a
   * manager names the row to change, anyone else changes the row of the
   * login typed.
   */
  function Gate(users: Table, login: string, target: string, choice: int): (r: Option<(string, Column)>)
    ensures r.None? <==> !(1 <= choice <= if IsManager(users, login) then 5 else 3)
    ensures r.Some? ==> r.value.0 == if IsManager(users, login) then target else login
    ensures r.Some? ==> r.value.1 == ManagerColumn(choice).value
  {
    if IsManager(users, login) then
      match ManagerColumn(choice)
      case None => None
      case Some(c) => Some((target, c))
    else
      match CustomerColumn(choice)
      case None => None
      case Some(c) => Some((login, c))
  }

  /**
   * Whoever types a login that is not a manager's can change only phone
   * number, password or favorite items, and only of the row of the login
   * typed; choices other than 1 to 3 change nothing.
   */
  lemma NonManagerGate(users: Table, login: string, target: string, choice: int)
    requires !IsManager(users, login)
    ensures Gate(users, login, target, choice).None? <==> !(1 <= choice <= 3)
    ensures Gate(users, login, target, choice).Some? ==>
      && Gate(users, login, target, choice).value.0 == login
      && Gate(users, login, target, choice).value.1 in {PhoneNum, Password, FavoriteItems}
  {
  }

  /**
   * Whoever types a manager's login (the session's own login or not) may
   * change any of the five columns of any row named as the target; choices
   * other than 1 to 5 change nothing.
   */
  lemma ManagerGate(users: Table, login: string, target: string, choice: int)
    requires IsManager(users, login)
    ensures Gate(users, login, target, choice).None? <==> !(1 <= choice <= 5)
    ensures Gate(users, login, target, choice).Some? ==> Gate(users, login, target, choice).value.0 == target
    ensures choice == 4 ==> Gate(users, login, target, choice) == Some((target, Login))
    ensures choice == 5 ==> Gate(users, login, target, choice) == Some((target, Role))
  {
  }

  /** The table a profile update leaves when every statement reaches the database. */
  function ProfileUpdate(users: Table, login: string, target: string, choice: int, v: string): (r: Table)
    ensures Gate(users, login, target, choice).None? ==> r == users
    ensures forall k :: k in users && (Gate(users, login, target, choice).None? || k != Gate(users, login, target, choice).value.0) ==>
      k in r && r[k] == users[k]
  {
    match Gate(users, login, target, choice)
    case None => users
    case Some((t, c)) =>
      match Updated(users, t, c, v)
      case None => users
      case Some(m) => m
  }

  /** An update of phone number, password or favorite items leaves every login's manager status as it was. */
  lemma SafeColumnsKeepManagers(users: Table, t: string, c: Column, v: string, l: string)
    requires TableValid(users) && c in {PhoneNum, Password, FavoriteItems}
    ensures IsManager(Updated(users, t, c, v).value, l) == IsManager(users, l)
  {
    UpdateChangesOneColumn(users, t, c, v);
    var m := Updated(users, t, c, v).value;
    if l in users && l == t {
      assert ColumnValue(m[l], Role) == ColumnValue(users[l], Role);
    }
    IsManagerFollowsRole(users, m, l);
  }

  /** A profile update typed at a non-manager login never changes who is a manager. */
  lemma NonManagerCannotEscalate(users: Table, login: string, target: string, choice: int, v: string, l: string)
    requires TableValid(users) && !IsManager(users, login)
    ensures IsManager(ProfileUpdate(users, login, target, choice, v), l) == IsManager(users, l)
  {
    NonManagerGate(users, login, target, choice);
    var g := Gate(users, login, target, choice);
    if g.Some? {
      SafeColumnsKeepManagers(users, g.value.0, g.value.1, v, l);
    }
  }

  /** A profile update keeps the key invariant of the table. */
  lemma ProfileUpdateKeepsValid(users: Table, login: string, target: string, choice: int, v: string)
    requires TableValid(users)
    ensures TableValid(ProfileUpdate(users, login, target, choice, v))
  {
    var g := Gate(users, login, target, choice);
    if g.Some? && Updated(users, g.value.0, g.value.1, v).Some? {
      UpdatedKeepsValid(users, g.value.0, g.value.1, v);
    }
  }

  /**
   * Repeating a profile update with the same answers leaves the table as
   * the first one left it, even when the first demoted or renamed the
   * manager login that was typed.
   */
  lemma ProfileUpdateIsIdempotent(users: Table, login: string, target: string, choice: int, v: string)
    requires TableValid(users)
    ensures var m := ProfileUpdate(users, login, target, choice, v);
      ProfileUpdate(m, login, target, choice, v) == m
  {
    var m := ProfileUpdate(users, login, target, choice, v);
    var g := Gate(users, login, target, choice);
    if g.Some? && Updated(users, g.value.0, g.value.1, v).Some? {
      var (t, c) := g.value;
      assert m == Updated(users, t, c, v).value;
      UpdatedKeepsValid(users, t, c, v);
      if IsManager(m, login) == IsManager(users, login) {
        assert Gate(m, login, target, choice) == g;
        UpdateIsIdempotent(users, t, c, v);
      } else if IsManager(users, login) {
        // Only a manager's change of a login or role column can end the typed login's manager status.
        if c in {PhoneNum, Password, FavoriteItems} {
          SafeColumnsKeepManagers(users, t, c, v, login);
        }
        assert choice == 4 || choice == 5;
        NonManagerGate(m, login, target, choice);
      } else {
        NonManagerCannotEscalate(users, login, target, choice, v, login);
      }
    }
  }

  /** A profile update typed at a login whose role is "customer" never reaches the role column. */
  lemma CustomerCannotSetRole(users: Table, login: string, target: string, v: string)
    requires login in users && users[login].role == "customer"
    ensures ProfileUpdate(users, login, target, 5, v) == users
  {
    RoleDecidesManager(users, login);
  }

  /** A profile update typed at a login whose role is "manager" sets the role of any existing target. */
  lemma ManagerSetsRole(users: Table, login: string, target: string, v: string)
    requires TableValid(users)
    requires login in users && users[login].role == "manager" && target in users
    ensures target in ProfileUpdate(users, login, target, 5, v)
    ensures ProfileUpdate(users, login, target, 5, v)[target].role == v
  {
    RoleDecidesManager(users, login);
    assert Gate(users, login, target, 5) == Some((target, Role));
    UpdateChangesOneColumn(users, target, Role, v);
  }

  /** The live database: its users table and whether the connection answers. */
  class Database {
    var users: Table
    const connected: bool

    predicate Valid()
      reads this
    {
      TableValid(users)
    }

    constructor (users: Table, connected: bool)
      requires TableValid(users)
      ensures Valid()
      ensures this.users == users && this.connected == connected
    {
      this.users := users;
      this.connected := connected;
    }

    /** executeUpdate of an INSERT: fails without a connection or when the key is taken. */
    method ExecuteInsert(row: User) returns (ok: bool)
      requires Valid()
      modifies this`users
      ensures Valid()
      ensures ok <==> connected && Inserted(old(users), row).Some?
      ensures users == if ok then Inserted(old(users), row).value else old(users)
    {
      var next := Inserted(users, row);
      ok := connected && next.Some?;
      if ok {
        users := next.value;
      }
    }

    /** executeUpdate of an UPDATE of one column: fails without a connection or on a key clash. */
    method ExecuteUpdate(target: string, c: Column, v: string) returns (ok: bool)
      requires Valid()
      modifies this`users
      ensures Valid()
      ensures ok <==> connected && Updated(old(users), target, c, v).Some?
      ensures users == if ok then Updated(old(users), target, c, v).value else old(users)
    {
      var next := Updated(users, target, c, v);
      ok := connected && next.Some?;
      if ok {
        UpdatedKeepsValid(users, target, c, v);
        users := next.value;
      }
    }
  }

  /**
   * CreateUser: inserts a customer row with the login, password and phone
   * number typed and favoriteItems NULL; a failed insert is reported and
   * changes nothing.
   */
  method CreateUser(db: Database, login: string, password: string, phoneNum: string) returns (created: bool)
    requires db.Valid()
    modifies db`users
    ensures db.Valid()
    ensures created <==> db.connected && login !in old(db.users)
    ensures db.users == if created then old(db.users)[login := NewCustomer(login, password, phoneNum)] else old(db.users)
  {
    created := db.ExecuteInsert(NewCustomer(login, password, phoneNum));
  }

  /**
   * LogIn: returns the login typed when some row has exactly that login and
   * password, and nothing (null) otherwise or when the query fails.
   */
  method LogIn(db: Database, login: string, password: string) returns (r: Option<string>)
    requires db.Valid()
    ensures r.Some? <==> db.connected && Authenticates(db.users, login, password)
    ensures r.Some? ==> r.value == login
  {
    if !db.connected {
      return None;
    }
    var userCount := |MatchingRows(db.users, login, password)|;
    MatchingRowsFound(db.users, login, password);
    if userCount > 0 {
      r := Some(login);
    } else {
      r := None;
    }
  }

  /** What viewProfile shows: everything but the password, or that the login has no row. */
  datatype ProfileView =
    | ProfileFailed
    | UserNotFound
    | Shown(login: string, phoneNum: string, role: string, favoriteItems: Option<string>)

  /** viewProfile: looks up any login typed, with no check of who asks. */
  method ViewProfile(db: Database, login: string) returns (r: ProfileView)
    requires db.Valid()
    ensures r == ProfileFailed <==> !db.connected
    ensures r == UserNotFound <==> db.connected && login !in db.users
    ensures r.Shown? ==>
      && login in db.users && r.login == login
      && r.phoneNum == db.users[login].phoneNum
      && r.role == db.users[login].role
      && r.favoriteItems == db.users[login].favoriteItems
  {
    if !db.connected {
      r := ProfileFailed;
    } else if login !in db.users {
      r := UserNotFound;
    } else {
      var u := db.users[login];
      r := Shown(u.login, u.phoneNum, u.role, u.favoriteItems);
    }
  }

  /** How a profile update ends. */
  datatype UpdateOutcome =
    | Applied(target: string, column: Column)
    | InvalidChoice
    | UpdateFailed                 // a statement failed: "Unable to update profile"

  /** Runs one column update and reports whether the database accepted it. */
  method RunUpdate(db: Database, target: string, c: Column, v: string) returns (r: UpdateOutcome)
    requires db.Valid()
    modifies db`users
    ensures db.Valid()
    ensures r == (if db.connected && Updated(old(db.users), target, c, v).Some? then Applied(target, c) else UpdateFailed)
    ensures db.users == if r.Applied? then Updated(old(db.users), target, c, v).value else old(db.users)
  {
    var ok := db.ExecuteUpdate(target, c, v);
    r := if ok then Applied(target, c) else UpdateFailed;
  }

  /**
   * updateProfile: reads the role of the login typed, sets the manager flag
   * from it, and runs the UPDATE that the menu choice selects: on the
   * target login typed next for a manager, on the login typed first for
   * anyone else.
   */
  method UpdateProfile(db: Database, login: string, target: string, choice: int, newValue: string)
    returns (r: UpdateOutcome)
    requires db.Valid()
    modifies db`users
    ensures db.Valid()
    ensures db.users == if db.connected then ProfileUpdate(old(db.users), login, target, choice, newValue) else old(db.users)
    ensures !db.connected ==> r == UpdateFailed
    ensures db.connected ==>
      match Gate(old(db.users), login, target, choice)
      case None => r == InvalidChoice
      case Some(tc) =>
        r == if Updated(old(db.users), tc.0, tc.1, newValue).Some? then Applied(tc.0, tc.1) else UpdateFailed
  {
    if !db.connected {
      // The role query itself fails.
      return UpdateFailed;
    }
    var manager := false;
    var roleRow := StoredRole(db.users, login);
    if roleRow.Some? {
      var role := Trim(JavaWhitespace, roleRow.value);
      if EqualsIgnoreCase(role, "manager") {
        manager := true;
      }
    }
    assert manager == IsManager(db.users, login);

    if manager {
      if choice == 1 {
        r := RunUpdate(db, target, PhoneNum, newValue);
      } else if choice == 2 {
        r := RunUpdate(db, target, Password, newValue);
      } else if choice == 3 {
        r := RunUpdate(db, target, FavoriteItems, newValue);
      } else if choice == 4 {
        r := RunUpdate(db, target, Login, newValue);
      } else if choice == 5 {
        r := RunUpdate(db, target, Role, newValue);
      } else {
        r := InvalidChoice;
      }
    } else {
      if choice == 1 {
        r := RunUpdate(db, login, PhoneNum, newValue);
      } else if choice == 2 {
        r := RunUpdate(db, login, Password, newValue);
      } else if choice == 3 {
        r := RunUpdate(db, login, FavoriteItems, newValue);
      } else {
        r := InvalidChoice;
      }
    }
  }
}
