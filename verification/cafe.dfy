/** The cafe client: class `Cafe` holds the USERS, MENU and ORDERS tables
    behind the connection; its methods are the guarded actions the menus
    run against them and the nested menu loops. Each loop is proved to leave
    exactly the tables the matching function of module `Effects` gives. */
module CafeClient {
  import opened Tables
  import opened Schema
  import opened Dialogue
  import opened Effects

  class Cafe {
    var users: seq<User>
    var menu: seq<MenuItem>
    var orders: seq<Order>

    /** The three tables as one value. */
    function State(): Db
      reads this
    {
      Db(users, menu, orders)
    }

    /** Attaches the client to a database holding these tables. */
    constructor (users: seq<User>, menu: seq<MenuItem>, orders: seq<Order>)
      ensures this.users == users && this.menu == menu && this.orders == orders
    {
      this.users := users;
      this.menu := menu;
      this.orders := orders;
    }

    /** Registration: inserts one Customer row with no favourite items. */
    method CreateUser(login: string, password: string, phone: string)
      modifies this
      ensures users == old(users) + [User(login, password, phone, "", "Customer")]
      ensures menu == old(menu) && orders == old(orders)
    {
      var userType := "Customer";
      var favItems := "";
      users := users + [User(login, password, phone, favItems, userType)];
    }

    /** Authentication: the entered login when some row matches both login and password. */
    method LogIn(login: string, password: string) returns (authorised: Option<string>)
      ensures authorised.Some? <==> Registered(users, login, password)
      ensures authorised.Some? ==> authorised.value == login
    {
      var userNum := ExecuteQuery(users, Credentials(login, password));
      if userNum > 0 {
        return Some(login);
      }
      return None;
    }

    /** Manager authentication: as `LogIn`, but the matching row must also have type Manager. */
    method ManagerLogin(login: string, password: string) returns (manager: Option<string>)
      ensures manager.Some? <==> RegisteredAs(users, login, password, "Manager")
      ensures manager.Some? ==> manager.value == login
    {
      var userNum := ExecuteQuery(users, CredentialsOfType(login, password, "Manager"));
      if userNum > 0 {
        return Some(login);
      }
      return None;
    }

    /** Search by item name: shows the MENU rows with that name. */
    method EnterItemName(itemName: string) returns (shown: seq<MenuItem>)
      ensures shown == Select(menu, Named(itemName))
    {
      var rowCount;
      rowCount, shown := ExecuteQueryAndPrintResult(menu, Named(itemName));
    }

    /** Search by item type: shows the MENU rows of that type. */
    method EnterItemType(itemType: string) returns (shown: seq<MenuItem>)
      ensures shown == Select(menu, OfType(itemType))
    {
      var rowCount;
      rowCount, shown := ExecuteQueryAndPrintResult(menu, OfType(itemType));
    }

    /** The browsing loop. `shown[k]` is what the k-th step displayed: the
        search result for choices 1 and 2, nothing for any other choice but 9,
        which leaves the loop. Browsing changes no table. */
    method ItemMenu(steps: seq<BrowseStep>) returns (shown: seq<seq<MenuItem>>)
      ensures |shown| <= |steps|
      ensures forall k :: 0 <= k < |shown| ==> steps[k].choice != 9
      ensures |shown| < |steps| ==> steps[|shown|].choice == 9
      ensures forall k :: 0 <= k < |shown| && steps[k].choice == 1 ==> shown[k] == Select(menu, Named(steps[k].text))
      ensures forall k :: 0 <= k < |shown| && steps[k].choice == 2 ==> shown[k] == Select(menu, OfType(steps[k].text))
      ensures forall k :: 0 <= k < |shown| && steps[k].choice !in {1, 2} ==> shown[k] == []
    {
      var viewmenu := true;
      shown := [];
      while viewmenu && |shown| < |steps|
        invariant |shown| <= |steps|
        invariant forall k :: 0 <= k < |shown| ==> steps[k].choice != 9
        invariant !viewmenu ==> |shown| < |steps| && steps[|shown|].choice == 9
        invariant forall k :: 0 <= k < |shown| ==> Displays(steps[k], shown[k])
      {
        var step := steps[|shown|];
        if step.choice == 9 {
          viewmenu := false;
        } else {
          var rows := Browse(step);
          shown := shown + [rows];
        }
      }
    }

    /** `rows` is what one pass of the browsing loop shows for `step`. */
    predicate Displays(step: BrowseStep, rows: seq<MenuItem>)
      reads this
    {
      && (step.choice == 1 ==> rows == Select(menu, Named(step.text)))
      && (step.choice == 2 ==> rows == Select(menu, OfType(step.text)))
      && (step.choice !in {1, 2} ==> rows == [])
    }

    /** One pass of the browsing loop other than 9: a search by name for
        choice 1, by type for choice 2, and nothing for any other choice. */
    method Browse(step: BrowseStep) returns (rows: seq<MenuItem>)
      ensures step.choice == 1 ==> rows == Select(menu, Named(step.text))
      ensures step.choice == 2 ==> rows == Select(menu, OfType(step.text))
      ensures step.choice !in {1, 2} ==> rows == []
    {
      match step.choice
      case 1 => rows := EnterItemName(step.text);
      case 2 => rows := EnterItemType(step.text);
      case _ => rows := [];
    }

    /** Menu add: appends one row built from the five entered values. */
    method AddItem(itemName: string, itemType: string, price: string, description: string, imageURL: string)
      modifies this
      ensures menu == old(menu) + [MenuItem(itemName, itemType, price, description, imageURL)]
      ensures users == old(users) && orders == old(orders)
    {
      menu := menu + [MenuItem(itemName, itemType, price, description, imageURL)];
    }

    /** Menu delete: removes every row with that name and keeps all others,
        without checking first that such a row exists. */
    method DeleteItem(itemName: string)
      modifies this
      ensures menu == Select(old(menu), NotNamed(itemName))
      ensures users == old(users) && orders == old(orders)
    {
      menu := Select(menu, NotNamed(itemName));
    }

    /** The item editor. Each pass reads an item name and leaves the editor
        when no MENU row has it; otherwise one UPDATE sets one column of the
        rows with that name. Option 5, announced as the image URL, writes the
        `type` column, so no `imageURL` ever changes. Rows whose name was never
        entered are untouched, and no row is added or removed. */
    method UpdateItem(edits: seq<ItemEdit>) returns (ending: Ending)
      modifies this
      ensures (menu, ending) == ItemEditsEffect(old(menu), edits)
      ensures users == old(users) && orders == old(orders)
      ensures ending in {ExitChosen, NotFound, InputEnded}
      ensures |menu| == |old(menu)|
      ensures forall i :: 0 <= i < |menu| ==> menu[i].imageURL == old(menu)[i].imageURL
      ensures forall i :: 0 <= i < |menu| && (forall k :: 0 <= k < |edits| ==> old(menu)[i].itemName != edits[k].name) ==>
                menu[i] == old(menu)[i]
      ensures |edits| > 0 && (forall i :: 0 <= i < |old(menu)| ==> old(menu)[i].itemName != edits[0].name) ==>
                ending == NotFound && menu == old(menu)
    {
      var updatemenu := true;
      var n := 0;
      ending := InputEnded;
      while updatemenu && n < |edits|
        invariant 0 <= n <= |edits|
        invariant users == old(users) && orders == old(orders)
        invariant updatemenu ==> ending == InputEnded
        invariant updatemenu ==> ItemEditsEffect(old(menu), edits) == ItemEditsEffect(menu, edits[n..])
        invariant !updatemenu ==> ItemEditsEffect(old(menu), edits) == (menu, ending)
      {
        var edit := edits[n];
        assert edits[n..][1..] == edits[n + 1..];
        var itemName := edit.name;
        // the existence check before any update
        var itemExists := ExecuteQuery(menu, Named(itemName));
        if itemExists < 1 {
          return NotFound;
        }
        n := n + 1;
        if edit.choice == 9 {
          updatemenu := false;
          ending := ExitChosen;
        } else {
          UpdateItemColumn(itemName, edit.choice, edit.value);
        }
      }
      if updatemenu {
        assert edits[n..] == [];
      }
    }

    /** One column update of the item editor, on the rows named `itemName`:
        options 1-4 set the name, type, price and description; option 5,
        announced as the image URL, sets the type as well; any other choice
        (other than 9, which leaves the editor) sends nothing. */
    method UpdateItemColumn(itemName: string, choice: int, value: string)
      modifies this
      ensures menu == ItemColumnEffect(old(menu), itemName, choice, value)
      ensures users == old(users) && orders == old(orders)
      ensures choice == 1 ==> menu == UpdateWhere(old(menu), Named(itemName), SetItemName(value))
      ensures choice == 2 || choice == 5 ==> menu == UpdateWhere(old(menu), Named(itemName), SetItemType(value))
      ensures choice == 3 ==> menu == UpdateWhere(old(menu), Named(itemName), SetPrice(value))
      ensures choice == 4 ==> menu == UpdateWhere(old(menu), Named(itemName), SetDescription(value))
      ensures choice !in {1, 2, 3, 4, 5} ==> menu == old(menu)
    {
      match choice
      case 1 => menu := UpdateWhere(menu, Named(itemName), SetItemName(value));
      case 2 => menu := UpdateWhere(menu, Named(itemName), SetItemType(value));
      case 3 => menu := UpdateWhere(menu, Named(itemName), SetPrice(value));
      case 4 => menu := UpdateWhere(menu, Named(itemName), SetDescription(value));
      case 5 => menu := UpdateWhere(menu, Named(itemName), SetItemType(value));
      case _ =>
    }

    /** The modify-menu loop, entered from the cafe menu once `ManagerLogin`
        has succeeded: add, delete or edit items until the user chooses 9. It
        changes only the MENU table. */
    method ModifyMenu(steps: seq<ModifyStep>)
      modifies this
      ensures menu == ModifyStepsEffect(old(menu), steps)
      ensures users == old(users) && orders == old(orders)
    {
      var modifymenu := true;
      var n := 0;
      while modifymenu && n < |steps|
        invariant n <= |steps|
        invariant users == old(users) && orders == old(orders)
        invariant modifymenu ==> ModifyStepsEffect(old(menu), steps) == ModifyStepsEffect(menu, steps[n..])
        invariant !modifymenu ==> ModifyStepsEffect(old(menu), steps) == menu
      {
        var step := steps[n];
        assert steps[n..][1..] == steps[n + 1..];
        n := n + 1;
        modifymenu := ModifyPass(step);
      }
    }

    /** One pass of the modify-menu loop; `modifymenu` is false after 9. */
    method ModifyPass(step: ModifyStep) returns (modifymenu: bool)
      modifies this
      ensures modifymenu <==> step.choice != 9
      ensures menu == ModifyStepEffect(old(menu), step)
      ensures users == old(users) && orders == old(orders)
    {
      modifymenu := true;
      match step.choice
      case 1 =>
        var item := step.newItem;
        AddItem(item.itemName, item.itemType, item.price, item.description, item.imageURL);
      case 2 => DeleteItem(step.name);
      case 3 => var ending := UpdateItem(step.edits);
      case 9 => modifymenu := false;
      case _ =>
    }

    /** The cafe menu: browse, or pass the manager check and modify.
        `managers` lists the login and password of each pass that got
        through the check; each pair belongs to a Manager row, and MENU
        changes only if some pair got through. */
    method Menu(steps: seq<CafeStep>) returns (managers: seq<(string, string)>)
      modifies this
      ensures menu == CafeStepsEffect(users, old(menu), steps)
      ensures users == old(users) && orders == old(orders)
      ensures managers == [] ==> menu == old(menu)
      ensures forall m :: m in managers ==> RegisteredAs(users, m.0, m.1, "Manager")
      ensures (forall i :: 0 <= i < |users| ==> users[i].userType != "Manager") ==> managers == [] && menu == old(menu)
    {
      var cafemenu := true;
      managers := [];
      var n := 0;
      while cafemenu && n < |steps|
        invariant n <= |steps|
        invariant users == old(users) && orders == old(orders)
        invariant cafemenu ==> CafeStepsEffect(users, old(menu), steps) == CafeStepsEffect(users, menu, steps[n..])
        invariant !cafemenu ==> CafeStepsEffect(users, old(menu), steps) == menu
        invariant managers == [] ==> menu == old(menu)
        invariant forall m :: m in managers ==> RegisteredAs(users, m.0, m.1, "Manager")
        invariant (forall i :: 0 <= i < |users| ==> users[i].userType != "Manager") ==> managers == []
      {
        var step := steps[n];
        assert steps[n..][1..] == steps[n + 1..];
        n := n + 1;
        var managerUser;
        cafemenu, managerUser := CafePass(step);
        if managerUser.Some? {
          managers := managers + [(managerUser.value, step.password)];
        }
      }
    }

    /** One pass of the cafe menu: browsing, or the manager check that, when
        it succeeds, runs the modify-menu loop; `cafemenu` is false after 9. */
    method CafePass(step: CafeStep) returns (cafemenu: bool, managerUser: Option<string>)
      modifies this
      ensures cafemenu <==> step.choice != 9
      ensures managerUser.Some? <==> step.choice == 2 && RegisteredAs(users, step.login, step.password, "Manager")
      ensures managerUser.Some? ==> managerUser.value == step.login && menu == ModifyStepsEffect(old(menu), step.modifyMenu)
      ensures managerUser.None? ==> menu == old(menu)
      ensures users == old(users) && orders == old(orders)
    {
      cafemenu, managerUser := true, None;
      match step.choice {
        case 1 => var shown := ItemMenu(step.browse);
        case 2 => managerUser := ManagerLogin(step.login, step.password);
        case 9 => cafemenu := false;
        case _ =>
      }
      if managerUser.Some? {
        ModifyMenu(step.modifyMenu);
      }
    }

    /** The profile editor. The login and password are entered once, before
        the loop, and options 1-4 update only the rows carrying both, so with
        wrong credentials nothing changes. Option 5 sets the type of every row
        with the target login, and runs only while the entered credentials
        belong to a Manager row. Rows without the entered credentials keep
        every column but `type`. */
    method UpdateProfile(login: string, password: string, steps: seq<ProfileStep>)
      modifies this
      ensures users == ProfileStepsEffect(old(users), login, password, steps)
      ensures menu == old(menu) && orders == old(orders)
      ensures |users| == |old(users)|
      ensures !Registered(old(users), login, password) ==> users == old(users)
      ensures !RegisteredAs(old(users), login, password, "Manager") ==>
                forall i :: 0 <= i < |users| ==> users[i].userType == old(users)[i].userType
      ensures forall i :: 0 <= i < |users| && !HasCredentials(old(users)[i], login, password) ==>
                users[i] == old(users)[i].(userType := users[i].userType)
      ensures forall i :: 0 <= i < |users| ==>
                users[i].userType == old(users)[i].userType || users[i].userType in Roles
    {
      ProfileEditor(login, password, steps);
      ProfileStepsEdited(old(users), login, password, steps);
    }

    /** The profile editor's loop, under the credentials entered before it. */
    method ProfileEditor(login: string, password: string, steps: seq<ProfileStep>)
      modifies this
      ensures users == ProfileStepsEffect(old(users), login, password, steps)
      ensures menu == old(menu) && orders == old(orders)
    {
      var profile := true;
      var n := 0;
      while profile && n < |steps|
        invariant n <= |steps|
        invariant menu == old(menu) && orders == old(orders)
        invariant profile ==> ProfileStepsEffect(old(users), login, password, steps) == ProfileStepsEffect(users, login, password, steps[n..])
        invariant !profile ==> ProfileStepsEffect(old(users), login, password, steps) == users
      {
        var step := steps[n];
        assert steps[n..][1..] == steps[n + 1..];
        n := n + 1;
        profile := ProfilePass(login, password, step);
      }
      if profile {
        assert steps[n..] == [];
      }
    }

    /** One pass of the profile editor; `profile` is false after 9. */
    method ProfilePass(login: string, password: string, step: ProfileStep) returns (profile: bool)
      modifies this
      ensures profile <==> step.choice != 9
      ensures users == ProfileOptionEffect(old(users), login, password, step)
      ensures menu == old(menu) && orders == old(orders)
    {
      if step.choice == 9 {
        profile := false;
      } else {
        profile := true;
        ProfileOption(login, password, step);
      }
    }

    /** One pass of the profile editor other than 9, with the credentials
        entered before the loop. */
    method ProfileOption(login: string, password: string, step: ProfileStep)
      modifies this
      ensures users == ProfileOptionEffect(old(users), login, password, step)
      ensures menu == old(menu) && orders == old(orders)
      ensures step.choice == 1 ==> users == UpdateWhere(old(users), Credentials(login, password), SetLogin(step.value))
      ensures step.choice == 2 ==> users == UpdateWhere(old(users), Credentials(login, password), SetPhoneNum(step.value))
      ensures step.choice == 3 ==> users == UpdateWhere(old(users), Credentials(login, password), SetPassword(step.value))
      ensures step.choice == 4 ==> users == UpdateWhere(old(users), Credentials(login, password), SetFavItems(step.value))
      ensures step.choice == 5 && RegisteredAs(old(users), login, password, "Manager") ==>
                users == UpdateWhere(old(users), LoginIs(step.target), SetUserType(RoleChoice(step.role)))
      ensures step.choice !in {1, 2, 3, 4, 5} || (step.choice == 5 && !RegisteredAs(old(users), login, password, "Manager")) ==>
                users == old(users)
      ensures ProfileEdited(old(users), users, login, password)
    {
      ProfileOptionEdits(users, login, password, step);
      match step.choice
      case 1 => users := UpdateWhere(users, Credentials(login, password), SetLogin(step.value));
      case 2 => users := UpdateWhere(users, Credentials(login, password), SetPhoneNum(step.value));
      case 3 => users := UpdateWhere(users, Credentials(login, password), SetPassword(step.value));
      case 4 => users := UpdateWhere(users, Credentials(login, password), SetFavItems(step.value));
      case 5 =>
        var userType := "Manager";
        var userNum := ExecuteQuery(users, CredentialsOfType(login, password, userType));
        if userNum > 0 {
          var uType := RoleChoice(step.role);
          users := UpdateWhere(users, LoginIs(step.target), SetUserType(uType));
        }
      case _ =>
    }

    /** The order editor. It leaves at once when no row has the order id, or
        when none of them is unpaid. Options 1, 2, 4 and 5 send an UPDATE with
        no WHERE keyword, which the store rejects, ending the editor. Option 3
        marks the order paid unless the entered credentials belong to a
        Customer row; credentials that match no row at all pass. So only the
        `paid` column of this order's rows changes, and only to true. */
    method UpdateOrder(orderId: int, edits: seq<OrderEdit>) returns (ending: Ending)
      modifies this
      ensures (orders, ending) == OrderEffect(users, old(orders), orderId, edits)
      ensures users == old(users) && menu == old(menu)
      ensures PaidOnlyRises(old(orders), orders)
      ensures forall i :: 0 <= i < |orders| && old(orders)[i].orderId != orderId ==> orders[i] == old(orders)[i]
      ensures ending == NotFound <==> forall i :: 0 <= i < |old(orders)| ==> old(orders)[i].orderId != orderId
      ensures ending == AlreadyPaid <==>
                && (exists i :: 0 <= i < |old(orders)| && old(orders)[i].orderId == orderId)
                && (forall i :: 0 <= i < |old(orders)| && old(orders)[i].orderId == orderId ==> old(orders)[i].paid)
      ensures ending in {NotFound, AlreadyPaid} ==> orders == old(orders)
      ensures orders != old(orders) ==>
                exists k :: 0 <= k < |edits| && edits[k].choice == 3 && !RegisteredAs(users, edits[k].login, edits[k].password, "Customer")
      ensures && (exists i :: 0 <= i < |old(orders)| && old(orders)[i].orderId == orderId && !old(orders)[i].paid)
              && |edits| > 0 && edits[0].choice == 3 && !RegisteredAs(users, edits[0].login, edits[0].password, "Customer")
              ==> OrderPaid(orders, orderId)
    {
      // what the editor's passes lead to, whatever path the loop takes
      if OrderEditsEffect(users, orders, orderId, edits).0 != orders {
        OrderChangeNeedsNonCustomer(users, orders, orderId, edits);
      }
      if |edits| > 0 && edits[0].choice == 3 && !RegisteredAs(users, edits[0].login, edits[0].password, "Customer") {
        PaidAttemptPays(users, orders, orderId, edits, 0);
      }
      // the existence check
      var orderExists := ExecuteQuery(orders, OrderIdIs(orderId));
      if orderExists < 1 {
        return NotFound;
      }
      // the paid check
      var notPaid := ExecuteQuery(orders, UnpaidOrderIdIs(orderId));
      if notPaid == 0 {
        return AlreadyPaid;
      }
      ending := OrderEdits(orderId, edits);
    }

    /** The order editor's loop, entered once the order exists and has an
        unpaid row. */
    method OrderEdits(orderId: int, edits: seq<OrderEdit>) returns (ending: Ending)
      modifies this
      ensures (orders, ending) == OrderEditsEffect(users, old(orders), orderId, edits)
      ensures users == old(users) && menu == old(menu)
    {
      var updateorder := true;
      var n := 0;
      ending := InputEnded;
      while updateorder && n < |edits|
        invariant 0 <= n <= |edits|
        invariant users == old(users) && menu == old(menu)
        invariant updateorder ==> ending == InputEnded
        invariant updateorder ==> OrderEditsEffect(users, old(orders), orderId, edits) == OrderEditsEffect(users, orders, orderId, edits[n..])
        invariant !updateorder ==> OrderEditsEffect(users, old(orders), orderId, edits) == (orders, ending)
      {
        var edit := edits[n];
        assert edits[n..][1..] == edits[n + 1..];
        n := n + 1;
        if edit.choice in {1, 2, 4, 5} {
          return StatementFailed;
        } else if edit.choice == 9 {
          updateorder := false;
          ending := ExitChosen;
        } else if edit.choice == 3 {
          MarkPaidUnlessCustomer(orderId, edit.login, edit.password);
        }
      }
      if updateorder {
        assert edits[n..] == [];
      }
    }

    /** Option 3 of the order editor: counts the rows with the entered
        credentials and type Customer, and unless there is one, marks every
        row of the order paid. Credentials that match no row at all pass. */
    method MarkPaidUnlessCustomer(orderId: int, login: string, password: string)
      modifies this
      ensures orders == PaidAttemptEffect(users, old(orders), orderId, login, password)
      ensures users == old(users) && menu == old(menu)
      ensures RegisteredAs(users, login, password, "Customer") ==> orders == old(orders)
      ensures !RegisteredAs(users, login, password, "Customer") ==> orders == UpdateWhere(old(orders), OrderIdIs(orderId), MarkPaid())
      ensures PaidOnlyRises(old(orders), orders)
      ensures !RegisteredAs(users, login, password, "Customer") ==> OrderPaid(orders, orderId)
    {
      var cus := ExecuteQuery(users, CredentialsOfType(login, password, "Customer"));
      if cus == 0 {
        orders := UpdateWhere(orders, OrderIdIs(orderId), MarkPaid());
      }
    }

    /** The logged-in menu: reachable only from a successful `LogIn`. Whatever
        the user does here, no USERS row is added or removed and ORDERS only
        gains paid flags. */
    method UserMenu(steps: seq<UserStep>)
      modifies this
      ensures State() == UserStepsEffect(old(State()), steps)
      ensures |users| == |old(users)|
      ensures PaidOnlyRises(old(orders), orders)
    {
      var usermenu := true;
      var n := 0;
      while usermenu && n < |steps|
        invariant n <= |steps|
        invariant usermenu ==> UserStepsEffect(old(State()), steps) == UserStepsEffect(State(), steps[n..])
        invariant !usermenu ==> UserStepsEffect(old(State()), steps) == State()
      {
        var step := steps[n];
        assert steps[n..][1..] == steps[n + 1..];
        n := n + 1;
        match step.choice
        case 1 => var managers := Menu(step.cafeMenu);
        case 2 => UpdateProfile(step.login, step.password, step.profile);
        case 3 => // PlaceOrder has an empty body
        case 4 => var ending := UpdateOrder(step.orderId, step.orderEdits);
        case 9 => usermenu := false;
        case _ =>
      }
      UserStepsChanges(old(State()), steps);
    }

    /** The main loop: register, log in, or leave with 9. `sessions` lists the
        logins whose logged-in menu was entered, each typed with a password
        that matched a USERS row as the earlier passes left it. Without a
        session, MENU and ORDERS are unchanged and USERS only gained
        registered Customer rows. */
    method Session(steps: seq<MainStep>) returns (sessions: seq<string>)
      modifies this
      ensures State() == SessionEffect(old(State()), steps)
      ensures sessions == SessionLogins(old(State()), steps)
      ensures forall j :: 0 <= j < |sessions| ==>
                exists k :: 0 <= k < |steps| && steps[k].choice == 2 && steps[k].login == sessions[j]
                            && Registered(SessionEffect(old(State()), steps[..k]).users, steps[k].login, steps[k].password)
      ensures |old(users)| <= |users|
      ensures PaidOnlyRises(old(orders), orders)
      ensures sessions == [] ==>
                && menu == old(menu) && orders == old(orders)
                && users[..|old(users)|] == old(users)
                && forall i :: |old(users)| <= i < |users| ==> users[i].userType == "Customer" && users[i].favItems == ""
    {
      sessions := MainLoop(steps);
      SessionChanges(old(State()), steps);
      forall j | 0 <= j < |sessions|
        ensures exists k :: 0 <= k < |steps| && steps[k].choice == 2 && steps[k].login == sessions[j]
                            && Registered(SessionEffect(old(State()), steps[..k]).users, steps[k].login, steps[k].password)
      {
        SessionLoginsRegistered(old(State()), steps, j);
        var k :| 0 <= k < |steps| && steps[k].choice == 2 && steps[k].login == SessionLogins(old(State()), steps)[j]
                 && Registered(SessionEffect(old(State()), steps[..k]).users, steps[k].login, steps[k].password);
        assert steps[k].login == sessions[j];
      }
      if sessions == [] {
        SessionNeedsLogin(old(State()), steps);
      }
    }

    /** The passes of the main loop, up to the first 9. */
    method MainLoop(steps: seq<MainStep>) returns (sessions: seq<string>)
      modifies this
      ensures State() == SessionEffect(old(State()), steps)
      ensures sessions == SessionLogins(old(State()), steps)
    {
      var keepon := true;
      sessions := [];
      var n := 0;
      while keepon && n < |steps|
        invariant n <= |steps|
        invariant keepon ==> RunLeft(old(State()), steps, State(), steps[n..], sessions)
        invariant !keepon ==> SessionEffect(old(State()), steps) == State() && SessionLogins(old(State()), steps) == sessions
      {
        assert steps[n..][1..] == steps[n + 1..];
        keepon, sessions := RunPass(old(State()), steps, steps[n..], sessions);
        n := n + 1;
      }
      if keepon {
        assert steps[n..] == [];
      }
    }

    /** What a run leaves once the passes before `rest` are done. */
    ghost predicate RunLeft(start: Db, steps: seq<MainStep>, db: Db, rest: seq<MainStep>, sessions: seq<string>)
    {
      && SessionEffect(start, steps) == SessionEffect(db, rest)
      && SessionLogins(start, steps) == sessions + SessionLogins(db, rest)
    }

    /** The first pass of `rest`, within a run. */
    method RunPass(ghost start: Db, ghost steps: seq<MainStep>, rest: seq<MainStep>, sessions: seq<string>)
      returns (keepon: bool, sessions': seq<string>)
      requires rest != [] && RunLeft(start, steps, State(), rest, sessions)
      modifies this
      ensures keepon ==> RunLeft(start, steps, State(), rest[1..], sessions')
      ensures !keepon ==> SessionEffect(start, steps) == State() && SessionLogins(start, steps) == sessions'
    {
      ghost var db := State();
      var authorisedUser;
      keepon, authorisedUser := MainPass(rest[0]);
      sessions' := sessions;
      if authorisedUser.Some? {
        sessions' := sessions + [authorisedUser.value];
      }
      if keepon {
        SessionUnfold(db, rest);
        assert sessions + ((if authorisedUser.Some? then [rest[0].login] else []) + SessionLogins(State(), rest[1..]))
            == sessions' + SessionLogins(State(), rest[1..]);
      }
    }

    /** One pass of the main loop: registration, or a login that, when it
        succeeds, runs the logged-in menu; `keepon` is false after 9. */
    method MainPass(step: MainStep) returns (keepon: bool, authorisedUser: Option<string>)
      modifies this
      ensures keepon <==> step.choice != 9
      ensures State() == MainStepEffect(old(State()), step)
      ensures authorisedUser.Some? <==> step.choice == 2 && Registered(old(users), step.login, step.password)
      ensures authorisedUser.Some? ==> authorisedUser.value == step.login
      ensures authorisedUser.None? ==> menu == old(menu) && orders == old(orders) && CustomersAdded(old(users), users)
    {
      keepon, authorisedUser := true, None;
      match step.choice {
        case 1 => CreateUser(step.login, step.password, step.phone);
        case 2 => authorisedUser := LogIn(step.login, step.password);
        case 9 => keepon := false;
        case _ =>
      }
      if authorisedUser.Some? {
        UserMenu(step.userMenu);
      }
    }
  }
}
