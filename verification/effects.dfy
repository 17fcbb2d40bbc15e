/** What each menu of the cafe client does to the database, as functions of
    the tables before it and of what is typed at it. Each menu method of
    class `Cafe` is proved to leave exactly the tables these functions give;
    the properties the client promises are proved about the functions. */
module Effects {
  import opened Tables
  import opened Schema
  import opened Dialogue

  /** The roles the profile editor can write, with the empty string left by
      an unrecognised choice. */
  const Roles: set<string> := {"Manager", "Employee", "Customer", ""}

  /** The role written by the profile editor's role change: an unrecognised
      choice leaves the empty string. */
  function RoleChoice(choice: int): (role: string)
    ensures role in Roles
    ensures choice == 1 <==> role == "Manager"
    ensures choice == 2 <==> role == "Employee"
    ensures choice == 3 <==> role == "Customer"
    ensures role == "" <==> choice !in {1, 2, 3}
  {
    match choice
    case 1 => "Manager"
    case 2 => "Employee"
    case 3 => "Customer"
    case _ => ""
  }

  // The item editor

  /** One column update of the item editor on the rows named `itemName`:
      options 1-4 set the name, type, price and description; option 5,
      announced as the image URL, sets the type; any other choice sends
      nothing. No image URL ever changes, and rows with another name are
      untouched. */
  function ItemColumnEffect(menu: seq<MenuItem>, itemName: string, choice: int, value: string): (r: seq<MenuItem>)
    ensures |r| == |menu|
    ensures forall i :: 0 <= i < |menu| ==> r[i].imageURL == menu[i].imageURL
    ensures forall i :: 0 <= i < |menu| && menu[i].itemName != itemName ==> r[i] == menu[i]
  {
    match choice
    case 1 => UpdateWhere(menu, Named(itemName), SetItemName(value))
    case 2 => UpdateWhere(menu, Named(itemName), SetItemType(value))
    case 3 => UpdateWhere(menu, Named(itemName), SetPrice(value))
    case 4 => UpdateWhere(menu, Named(itemName), SetDescription(value))
    case 5 => UpdateWhere(menu, Named(itemName), SetItemType(value))
    case _ => menu
  }

  /** The item editor over its passes: each pass first checks that the
      entered name exists and leaves with NotFound when it does not; choice 9
      leaves; any other choice applies `ItemColumnEffect` and goes on. */
  function ItemEditsEffect(menu: seq<MenuItem>, edits: seq<ItemEdit>): (r: (seq<MenuItem>, Ending))
    ensures r.1 in {ExitChosen, NotFound, InputEnded}
    ensures |r.0| == |menu|
    ensures forall i :: 0 <= i < |menu| ==> r.0[i].imageURL == menu[i].imageURL
    ensures forall i :: 0 <= i < |menu| && (forall k :: 0 <= k < |edits| ==> menu[i].itemName != edits[k].name) ==>
              r.0[i] == menu[i]
    decreases |edits|
  {
    if edits == [] then (menu, InputEnded)
    else if |Select(menu, Named(edits[0].name))| < 1 then (menu, NotFound)
    else if edits[0].choice == 9 then (menu, ExitChosen)
    else
      var next := ItemColumnEffect(menu, edits[0].name, edits[0].choice, edits[0].value);
      assert forall k :: 0 <= k < |edits| - 1 ==> edits[1..][k] == edits[k + 1];
      ItemEditsEffect(next, edits[1..])
  }

  /** A first name that matches no row ends the item editor with NotFound
      and leaves MENU as it was. */
  lemma ItemEditsFirstNameMissing(menu: seq<MenuItem>, edits: seq<ItemEdit>)
    requires |edits| > 0
    requires forall i :: 0 <= i < |menu| ==> menu[i].itemName != edits[0].name
    ensures ItemEditsEffect(menu, edits) == (menu, NotFound)
  {
  }

  // The modify-menu loop and the cafe menu

  /** One pass of the modify-menu loop: 1 appends the new item, 2 deletes
      every row with the name, 3 runs the item editor. */
  function ModifyStepEffect(menu: seq<MenuItem>, step: ModifyStep): seq<MenuItem>
  {
    match step.choice
    case 1 => menu + [step.newItem]
    case 2 => Select(menu, NotNamed(step.name))
    case 3 => ItemEditsEffect(menu, step.edits).0
    case _ => menu
  }

  /** The modify-menu loop over its passes, up to the first 9. */
  function ModifyStepsEffect(menu: seq<MenuItem>, steps: seq<ModifyStep>): seq<MenuItem>
    decreases |steps|
  {
    if steps == [] || steps[0].choice == 9 then menu
    else ModifyStepsEffect(ModifyStepEffect(menu, steps[0]), steps[1..])
  }

  /** Without an add, a delete or an item edit, the modify-menu loop leaves
      MENU as it was. */
  lemma {:induction false} ModifyStepsOnlyByEdits(menu: seq<MenuItem>, steps: seq<ModifyStep>)
    requires forall k :: 0 <= k < |steps| ==> steps[k].choice !in {1, 2, 3}
    ensures ModifyStepsEffect(menu, steps) == menu
    decreases |steps|
  {
    if steps != [] && steps[0].choice != 9 {
      assert forall k :: 0 <= k < |steps[1..]| ==> steps[1..][k] == steps[k + 1];
      ModifyStepsOnlyByEdits(menu, steps[1..]);
    }
  }

  /** The cafe menu over its passes, up to the first 9: choice 2 runs the
      modify-menu loop only when the typed credentials belong to a Manager
      row; no other choice changes MENU. */
  function CafeStepsEffect(users: seq<User>, menu: seq<MenuItem>, steps: seq<CafeStep>): seq<MenuItem>
    decreases |steps|
  {
    if steps == [] || steps[0].choice == 9 then menu
    else if steps[0].choice == 2 && RegisteredAs(users, steps[0].login, steps[0].password, "Manager") then
      CafeStepsEffect(users, ModifyStepsEffect(menu, steps[0].modifyMenu), steps[1..])
    else
      CafeStepsEffect(users, menu, steps[1..])
  }

  /** Unless some pass types the credentials of a Manager row, the cafe menu
      leaves MENU as it was. */
  lemma {:induction false} CafeStepsNeedManager(users: seq<User>, menu: seq<MenuItem>, steps: seq<CafeStep>)
    requires forall k :: 0 <= k < |steps| && steps[k].choice == 2 ==>
               !RegisteredAs(users, steps[k].login, steps[k].password, "Manager")
    ensures CafeStepsEffect(users, menu, steps) == menu
    decreases |steps|
  {
    if steps != [] && steps[0].choice != 9 {
      assert forall k :: 0 <= k < |steps[1..]| ==> steps[1..][k] == steps[k + 1];
      CafeStepsNeedManager(users, menu, steps[1..]);
    }
  }

  // The profile editor

  /** How the profile editor, started with `login` and `password`, may change
      USERS: no row is added or removed; nothing changes unless some row
      carries those credentials; no type changes unless one of them is a
      Manager row; rows without the credentials keep every column but `type`;
      and a changed type is one of `Roles`. */
  ghost predicate ProfileEdited(before: seq<User>, after: seq<User>, login: string, password: string)
  {
    && |after| == |before|
    && (!Registered(before, login, password) ==> after == before)
    && (!RegisteredAs(before, login, password, "Manager") ==>
          forall i :: 0 <= i < |before| ==> after[i].userType == before[i].userType)
    && (forall i :: 0 <= i < |before| && !HasCredentials(before[i], login, password) ==>
          after[i] == before[i].(userType := after[i].userType))
    && (forall i :: 0 <= i < |before| ==> after[i].userType == before[i].userType || after[i].userType in Roles)
  }

  /** Successive passes of the profile editor compose: the credentials are
      entered once, and a pass cannot give them to a row that lacked them or
      make a row with them a Manager unless one already was. */
  lemma ProfileEditedTransitive(a: seq<User>, b: seq<User>, c: seq<User>, login: string, password: string)
    requires ProfileEdited(a, b, login, password) && ProfileEdited(b, c, login, password)
    ensures ProfileEdited(a, c, login, password)
  {
  }

  /** One pass of the profile editor other than 9: options 1-4 update one
      column of the rows with the entered credentials; option 5 sets the
      type of the target login's rows, only when the credentials belong to a
      Manager row. */
  function ProfileOptionEffect(users: seq<User>, login: string, password: string, step: ProfileStep): seq<User>
  {
    match step.choice
    case 1 => UpdateWhere(users, Credentials(login, password), SetLogin(step.value))
    case 2 => UpdateWhere(users, Credentials(login, password), SetPhoneNum(step.value))
    case 3 => UpdateWhere(users, Credentials(login, password), SetPassword(step.value))
    case 4 => UpdateWhere(users, Credentials(login, password), SetFavItems(step.value))
    case 5 =>
      if |Select(users, CredentialsOfType(login, password, "Manager"))| > 0 then
        UpdateWhere(users, LoginIs(step.target), SetUserType(RoleChoice(step.role)))
      else users
    case _ => users
  }

  /** Every pass of the profile editor is an allowed change of USERS. */
  lemma ProfileOptionEdits(users: seq<User>, login: string, password: string, step: ProfileStep)
    ensures ProfileEdited(users, ProfileOptionEffect(users, login, password, step), login, password)
  {
    match step.choice
    case 1 => OwnRowsEdited(users, login, password, SetLogin(step.value));
    case 2 => OwnRowsEdited(users, login, password, SetPhoneNum(step.value));
    case 3 => OwnRowsEdited(users, login, password, SetPassword(step.value));
    case 4 => OwnRowsEdited(users, login, password, SetFavItems(step.value));
    case 5 =>
      if RegisteredAs(users, login, password, "Manager") {
        var role := RoleChoice(step.role);
        var r := UpdateWhere(users, LoginIs(step.target), SetUserType(role));
        assert forall i :: 0 <= i < |users| ==> r[i] == users[i].(userType := r[i].userType);
      }
    case _ =>
  }

  /** An update of the rows carrying the entered credentials that keeps the
      `type` column is an allowed change of USERS. */
  lemma OwnRowsEdited(users: seq<User>, login: string, password: string, assign: User -> User)
    requires forall u :: assign(u).userType == u.userType
    ensures ProfileEdited(users, UpdateWhere(users, Credentials(login, password), assign), login, password)
  {
    if !Registered(users, login, password) {
      UpdateWhereNoMatch(users, Credentials(login, password), assign);
    }
  }

  /** The profile editor over its passes, up to the first 9. */
  function ProfileStepsEffect(users: seq<User>, login: string, password: string, steps: seq<ProfileStep>): seq<User>
    decreases |steps|
  {
    if steps == [] || steps[0].choice == 9 then users
    else ProfileStepsEffect(ProfileOptionEffect(users, login, password, steps[0]), login, password, steps[1..])
  }

  /** The whole profile editor, however many passes it makes, is an allowed
      change of USERS for the credentials entered before its loop. */
  lemma {:induction false} ProfileStepsEdited(users: seq<User>, login: string, password: string, steps: seq<ProfileStep>)
    ensures ProfileEdited(users, ProfileStepsEffect(users, login, password, steps), login, password)
    decreases |steps|
  {
    if steps != [] && steps[0].choice != 9 {
      var next := ProfileOptionEffect(users, login, password, steps[0]);
      ProfileOptionEdits(users, login, password, steps[0]);
      ProfileStepsEdited(next, login, password, steps[1..]);
      ProfileEditedTransitive(users, next, ProfileStepsEffect(next, login, password, steps[1..]), login, password);
    }
  }

  // The order editor

  /** Every row of the order is paid. */
  predicate OrderPaid(orders: seq<Order>, orderId: int)
  {
    forall i :: 0 <= i < |orders| && orders[i].orderId == orderId ==> orders[i].paid
  }

  /** ORDERS changes that only set paid flags compose. */
  lemma PaidOnlyRisesTransitive(a: seq<Order>, b: seq<Order>, c: seq<Order>)
    requires PaidOnlyRises(a, b) && PaidOnlyRises(b, c)
    ensures PaidOnlyRises(a, c)
  {
  }

  /** Option 3 of the order editor: refused when the entered credentials
      belong to a Customer row; otherwise, including for credentials that
      match no row, every row of the order is marked paid. */
  function PaidAttemptEffect(users: seq<User>, orders: seq<Order>, orderId: int, login: string, password: string): (r: seq<Order>)
    ensures RegisteredAs(users, login, password, "Customer") ==> r == orders
    ensures !RegisteredAs(users, login, password, "Customer") ==> OrderPaid(r, orderId)
    ensures PaidOnlyRises(orders, r)
    ensures forall i :: 0 <= i < |orders| && orders[i].orderId != orderId ==> r[i] == orders[i]
  {
    if |Select(users, CredentialsOfType(login, password, "Customer"))| > 0 then orders
    else UpdateWhere(orders, OrderIdIs(orderId), MarkPaid())
  }

  /** The order editor's passes once both checks have passed: options 1, 2,
      4 and 5 send a statement the store rejects, which ends the editor; 9
      leaves; 3 is a paid attempt; any other choice changes nothing. */
  function OrderEditsEffect(users: seq<User>, orders: seq<Order>, orderId: int, edits: seq<OrderEdit>): (r: (seq<Order>, Ending))
    ensures r.1 in {InputEnded, ExitChosen, StatementFailed}
    ensures PaidOnlyRises(orders, r.0)
    ensures forall i :: 0 <= i < |orders| && orders[i].orderId != orderId ==> r.0[i] == orders[i]
    decreases |edits|
  {
    if edits == [] then (orders, InputEnded)
    else if edits[0].choice in {1, 2, 4, 5} then (orders, StatementFailed)
    else if edits[0].choice == 9 then (orders, ExitChosen)
    else
      var next := if edits[0].choice == 3 then PaidAttemptEffect(users, orders, orderId, edits[0].login, edits[0].password) else orders;
      var r := OrderEditsEffect(users, next, orderId, edits[1..]);
      PaidOnlyRisesTransitive(orders, next, r.0);
      r
  }

  /** The order editor: NotFound when no row has the id, AlreadyPaid when
      none of them is unpaid, and otherwise its passes. */
  function OrderEffect(users: seq<User>, orders: seq<Order>, orderId: int, edits: seq<OrderEdit>): (r: (seq<Order>, Ending))
    ensures r.1 == NotFound <==> forall i :: 0 <= i < |orders| ==> orders[i].orderId != orderId
    ensures r.1 == AlreadyPaid <==>
              && (exists i :: 0 <= i < |orders| && orders[i].orderId == orderId)
              && (forall i :: 0 <= i < |orders| && orders[i].orderId == orderId ==> orders[i].paid)
    ensures r.1 in {NotFound, AlreadyPaid} ==> r.0 == orders
    ensures PaidOnlyRises(orders, r.0)
    ensures forall i :: 0 <= i < |orders| && orders[i].orderId != orderId ==> r.0[i] == orders[i]
  {
    if |Select(orders, OrderIdIs(orderId))| < 1 then (orders, NotFound)
    else if |Select(orders, UnpaidOrderIdIs(orderId))| == 0 then (orders, AlreadyPaid)
    else OrderEditsEffect(users, orders, orderId, edits)
  }

  /** A paid attempt whose credentials are not a Customer's marks the order
      paid, whatever their type (Manager, Employee, unknown), as long as no
      earlier pass ended the editor. */
  lemma {:induction false} PaidAttemptPays(users: seq<User>, orders: seq<Order>, orderId: int, edits: seq<OrderEdit>, k: nat)
    requires k < |edits| && edits[k].choice == 3
    requires !RegisteredAs(users, edits[k].login, edits[k].password, "Customer")
    requires forall j :: 0 <= j < k ==> edits[j].choice !in {1, 2, 4, 5, 9}
    ensures OrderPaid(OrderEditsEffect(users, orders, orderId, edits).0, orderId)
    decreases k
  {
    var next := if edits[0].choice == 3 then PaidAttemptEffect(users, orders, orderId, edits[0].login, edits[0].password) else orders;
    var r := OrderEditsEffect(users, next, orderId, edits[1..]);
    assert OrderEditsEffect(users, orders, orderId, edits) == r;
    if k == 0 {
      forall i | 0 <= i < |r.0| && r.0[i].orderId == orderId
        ensures r.0[i].paid
      {
        assert r.0[i] == next[i].(paid := r.0[i].paid);
      }
    } else {
      assert edits[1..][k - 1] == edits[k];
      PaidAttemptPays(users, next, orderId, edits[1..], k - 1);
    }
  }

  /** ORDERS changes only through a paid attempt whose credentials are not
      a Customer's. */
  lemma {:induction false} OrderChangeNeedsNonCustomer(users: seq<User>, orders: seq<Order>, orderId: int, edits: seq<OrderEdit>)
    requires OrderEditsEffect(users, orders, orderId, edits).0 != orders
    ensures exists k :: 0 <= k < |edits| && edits[k].choice == 3 && !RegisteredAs(users, edits[k].login, edits[k].password, "Customer")
    decreases |edits|
  {
    var next := if edits[0].choice == 3 then PaidAttemptEffect(users, orders, orderId, edits[0].login, edits[0].password) else orders;
    if next == orders {
      OrderChangeNeedsNonCustomer(users, next, orderId, edits[1..]);
      var k :| 0 <= k < |edits[1..]| && edits[1..][k].choice == 3 && !RegisteredAs(users, edits[1..][k].login, edits[1..][k].password, "Customer");
      assert edits[k + 1] == edits[1..][k];
    } else {
      assert edits[0].choice == 3;
    }
  }

  // The logged-in menu and the main loop

  /** One pass of the logged-in menu: 1 the cafe menu, 2 the profile editor,
      3 the order placement (which does nothing), 4 the order editor. */
  function UserStepEffect(db: Db, step: UserStep): Db
  {
    match step.choice
    case 1 => db.(menu := CafeStepsEffect(db.users, db.menu, step.cafeMenu))
    case 2 => db.(users := ProfileStepsEffect(db.users, step.login, step.password, step.profile))
    case 4 => db.(orders := OrderEffect(db.users, db.orders, step.orderId, step.orderEdits).0)
    case _ => db
  }

  /** The logged-in menu over its passes, up to the first 9. */
  function UserStepsEffect(db: Db, steps: seq<UserStep>): Db
    decreases |steps|
  {
    if steps == [] || steps[0].choice == 9 then db
    else UserStepsEffect(UserStepEffect(db, steps[0]), steps[1..])
  }

  /** How a database may evolve once a user is logged in: no USERS row is
      added or removed, and ORDERS only gains paid flags. */
  predicate LoggedInChange(before: Db, after: Db)
  {
    |after.users| == |before.users| && PaidOnlyRises(before.orders, after.orders)
  }

  /** One pass of the logged-in menu is such a change. */
  lemma UserStepChanges(db: Db, step: UserStep)
    ensures LoggedInChange(db, UserStepEffect(db, step))
  {
    if step.choice == 2 {
      ProfileStepsEdited(db.users, step.login, step.password, step.profile);
    }
  }

  /** The whole logged-in menu is such a change. */
  lemma {:induction false} UserStepsChanges(db: Db, steps: seq<UserStep>)
    ensures LoggedInChange(db, UserStepsEffect(db, steps))
    decreases |steps|
  {
    if steps != [] && steps[0].choice != 9 {
      var next := UserStepEffect(db, steps[0]);
      UserStepChanges(db, steps[0]);
      UserStepsChanges(next, steps[1..]);
      PaidOnlyRisesTransitive(db.orders, next.orders, UserStepsEffect(next, steps[1..]).orders);
    }
  }

  /** One pass of the main menu: 1 registers a Customer, 2 enters the
      logged-in menu only when the credentials match a USERS row. */
  function MainStepEffect(db: Db, step: MainStep): Db
  {
    match step.choice
    case 1 => db.(users := db.users + [User(step.login, step.password, step.phone, "", "Customer")])
    case 2 => if |Select(db.users, Credentials(step.login, step.password))| > 0 then UserStepsEffect(db, step.userMenu) else db
    case _ => db
  }

  /** The main loop over its passes, up to the first 9. */
  function SessionEffect(db: Db, steps: seq<MainStep>): Db
    decreases |steps|
  {
    if steps == [] || steps[0].choice == 9 then db
    else SessionEffect(MainStepEffect(db, steps[0]), steps[1..])
  }

  /** The logins of a run's passes that entered the logged-in menu, in
      order: choice 2 with a login and password that match a USERS row as
      the table stands at that pass. */
  function SessionLogins(db: Db, steps: seq<MainStep>): seq<string>
    decreases |steps|
  {
    if steps == [] || steps[0].choice == 9 then []
    else
      var here := if steps[0].choice == 2 && Registered(db.users, steps[0].login, steps[0].password) then [steps[0].login] else [];
      here + SessionLogins(MainStepEffect(db, steps[0]), steps[1..])
  }

  /** A run that does not start with 9 is its first pass, then the rest. */
  lemma SessionUnfold(db: Db, steps: seq<MainStep>)
    requires steps != [] && steps[0].choice != 9
    ensures SessionEffect(db, steps) == SessionEffect(MainStepEffect(db, steps[0]), steps[1..])
    ensures SessionLogins(db, steps) ==
              (if steps[0].choice == 2 && Registered(db.users, steps[0].login, steps[0].password) then [steps[0].login] else [])
              + SessionLogins(MainStepEffect(db, steps[0]), steps[1..])
  {
  }

  /** Every login of a run was typed at some pass k, with a password that
      matched a USERS row of the database the passes before k left. */
  lemma {:induction false} SessionLoginsRegistered(db: Db, steps: seq<MainStep>, j: nat)
    requires j < |SessionLogins(db, steps)|
    ensures exists k :: 0 <= k < |steps| && steps[k].choice == 2 && steps[k].login == SessionLogins(db, steps)[j]
                        && Registered(SessionEffect(db, steps[..k]).users, steps[k].login, steps[k].password)
    decreases |steps|
  {
    var next := MainStepEffect(db, steps[0]);
    var rest := SessionLogins(next, steps[1..]);
    if steps[0].choice == 2 && Registered(db.users, steps[0].login, steps[0].password) && j == 0 {
      assert SessionEffect(db, steps[..0]) == db;
    } else {
      var j' := if steps[0].choice == 2 && Registered(db.users, steps[0].login, steps[0].password) then j - 1 else j;
      assert rest[j'] == SessionLogins(db, steps)[j];
      SessionLoginsRegistered(next, steps[1..], j');
      var k :| 0 <= k < |steps[1..]| && steps[1..][k].choice == 2 && steps[1..][k].login == rest[j']
               && Registered(SessionEffect(next, steps[1..][..k]).users, steps[1..][k].login, steps[1..][k].password);
      SessionPrefixStep(db, steps, k);
      assert steps[k + 1] == steps[1..][k];
    }
  }

  /** The passes before k + 1 are the first pass, then the passes of the
      rest before k. */
  lemma SessionPrefixStep(db: Db, steps: seq<MainStep>, k: nat)
    requires k < |steps| - 1 && steps[0].choice != 9
    ensures SessionEffect(db, steps[..k + 1]) == SessionEffect(MainStepEffect(db, steps[0]), steps[1..][..k])
  {
    assert steps[..k + 1][1..] == steps[1..][..k];
  }

  /** A run in which no pass logs in leaves MENU and ORDERS as they were, and
      USERS only gains registered Customer rows at its end. */
  lemma {:induction false} SessionNeedsLogin(db: Db, steps: seq<MainStep>)
    requires SessionLogins(db, steps) == []
    ensures SessionEffect(db, steps).menu == db.menu
    ensures SessionEffect(db, steps).orders == db.orders
    ensures CustomersAdded(db.users, SessionEffect(db, steps).users)
    decreases |steps|
  {
    if steps != [] && steps[0].choice != 9 {
      var next := MainStepEffect(db, steps[0]);
      SessionNeedsLogin(next, steps[1..]);
      if steps[0].choice == 2 {
        assert |Select(db.users, Credentials(steps[0].login, steps[0].password))| == 0;
      }
      CustomersAddedTransitive(db.users, next.users, SessionEffect(next, steps[1..]).users);
    }
  }

  /** Registration after registration is registration. */
  lemma CustomersAddedTransitive(a: seq<User>, b: seq<User>, c: seq<User>)
    requires CustomersAdded(a, b) && CustomersAdded(b, c)
    ensures CustomersAdded(a, c)
  {
    assert c[..|a|] == c[..|b|][..|a|];
  }

  /** How a database may evolve over a whole run: USERS only grows, and
      ORDERS only gains paid flags. */
  predicate RunChange(before: Db, after: Db)
  {
    |before.users| <= |after.users| && PaidOnlyRises(before.orders, after.orders)
  }

  /** One pass of the main menu is such a change. */
  lemma MainStepChanges(db: Db, step: MainStep)
    ensures RunChange(db, MainStepEffect(db, step))
  {
    if step.choice == 2 {
      UserStepsChanges(db, step.userMenu);
    }
  }

  /** A whole run of the client is such a change. */
  lemma {:induction false} SessionChanges(db: Db, steps: seq<MainStep>)
    ensures RunChange(db, SessionEffect(db, steps))
    decreases |steps|
  {
    if steps != [] && steps[0].choice != 9 {
      var next := MainStepEffect(db, steps[0]);
      MainStepChanges(db, steps[0]);
      SessionChanges(next, steps[1..]);
      PaidOnlyRisesTransitive(db.orders, next.orders, SessionEffect(next, steps[1..]).orders);
    }
  }

  /** USERS only gained rows at its end, each of type Customer with no
      favourite items: what registration alone does. */
  predicate CustomersAdded(before: seq<User>, after: seq<User>)
  {
    && |before| <= |after|
    && after[..|before|] == before
    && forall i :: |before| <= i < |after| ==> after[i].userType == "Customer" && after[i].favItems == ""
  }
}
