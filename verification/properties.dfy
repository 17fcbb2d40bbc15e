/** Consequences of the statements the cafe client sends, stated on the
    tables: what a search finds after an add or a delete, what the profile
    editor's credentials match after it changes them, and what the order
    editor's paid check lets through. */
module Properties {
  import opened Tables
  import opened Schema
  import Effects

  /** A freshly registered login and password pass `LogIn`. */
  lemma RegisteredUserCanLogIn(users: seq<User>, login: string, password: string, phone: string)
    ensures Registered(users + [User(login, password, phone, "", "Customer")], login, password)
  {
    var after := users + [User(login, password, phone, "", "Customer")];
    assert HasCredentials(after[|users|], login, password);
  }

  /** In the model, where an add puts the new row last, searching by name after
      the add finds what it found before, then the new row. */
  lemma {:induction false} AddThenSearch(menu: seq<MenuItem>, item: MenuItem)
    ensures Select(menu + [item], Named(item.itemName)) == Select(menu, Named(item.itemName)) + [item]
  {
    SelectAppend(menu, item, Named(item.itemName));
  }

  /** When no row had the name, the search after the add returns exactly the new row. */
  lemma {:induction false} AddThenSearchUnique(menu: seq<MenuItem>, item: MenuItem)
    requires forall i :: 0 <= i < |menu| ==> menu[i].itemName != item.itemName
    ensures Select(menu + [item], Named(item.itemName)) == [item]
  {
    AddThenSearch(menu, item);
    SelectNonEmpty(menu, Named(item.itemName));
  }

  /** A delete keeps every row with another name, as often as it occurred,
      and drops every row with the given name. */
  lemma {:induction false} DeleteRemovesExactly(menu: seq<MenuItem>, itemName: string, row: MenuItem)
    ensures multiset(Select(menu, NotNamed(itemName)))[row] == if row.itemName == itemName then 0 else multiset(menu)[row]
  {
    SelectMultiplicity(menu, NotNamed(itemName), row);
  }

  /** After a delete, searching for the deleted name finds nothing. */
  lemma {:induction false} DeletedNameNotFound(menu: seq<MenuItem>, itemName: string)
    ensures Select(Select(menu, NotNamed(itemName)), Named(itemName)) == []
  {
    var kept := Select(menu, NotNamed(itemName));
    forall i | 0 <= i < |kept| ensures kept[i].itemName != itemName {
      DeleteRemovesExactly(menu, itemName, kept[i]);
      assert kept[i] in multiset(kept);
    }
    SelectNonEmpty(kept, Named(itemName));
  }

  /** A delete of a name that no row has leaves the table unchanged. */
  lemma {:induction false} DeleteMissingNameIsNoOp(menu: seq<MenuItem>, itemName: string)
    requires forall i :: 0 <= i < |menu| ==> menu[i].itemName != itemName
    ensures Select(menu, NotNamed(itemName)) == menu
  {
    SelectEveryRow(menu, NotNamed(itemName));
  }

  /** Once option 1 of the profile editor has changed the login to a new one,
      the credentials entered at its start match no row, so any later option
      of the same editor changes nothing. */
  lemma ChangedLoginLocksOut(users: seq<User>, login: string, password: string, newLogin: string, later: User -> User)
    requires newLogin != login
    ensures !Registered(UpdateWhere(users, Credentials(login, password), SetLogin(newLogin)), login, password)
    ensures var after := UpdateWhere(users, Credentials(login, password), SetLogin(newLogin));
            UpdateWhere(after, Credentials(login, password), later) == after
  {
  }

  /** The same for option 3, which changes the password. */
  lemma ChangedPasswordLocksOut(users: seq<User>, login: string, password: string, newPassword: string, later: User -> User)
    requires newPassword != password
    ensures !Registered(UpdateWhere(users, Credentials(login, password), SetPassword(newPassword)), login, password)
    ensures var after := UpdateWhere(users, Credentials(login, password), SetPassword(newPassword));
            UpdateWhere(after, Credentials(login, password), later) == after
  {
  }

  /** An unrecognised role choice writes the empty string into the type of
      every row with the target login. */
  lemma UnknownRoleClearsType(users: seq<User>, target: string, choice: int)
    requires choice !in {1, 2, 3}
    ensures var after := UpdateWhere(users, LoginIs(target), SetUserType(Effects.RoleChoice(choice)));
            forall i :: 0 <= i < |users| && users[i].login == target ==> after[i].userType == ""
  {
  }

  /** The paid check counts the rows with these credentials and type
      Customer; credentials that match no row at all count zero, so they pass. */
  lemma {:induction false} UnknownCredentialsPassPaidCheck(users: seq<User>, login: string, password: string)
    requires !Registered(users, login, password)
    ensures |Select(users, CredentialsOfType(login, password, "Customer"))| == 0
  {
    SelectNonEmpty(users, CredentialsOfType(login, password, "Customer"));
  }

  /** The paid check refuses exactly the credentials of a Customer row. */
  lemma {:induction false} PaidCheckRefusesOnlyCustomers(users: seq<User>, login: string, password: string)
    ensures |Select(users, CredentialsOfType(login, password, "Customer"))| > 0 <==> RegisteredAs(users, login, password, "Customer")
  {
    SelectNonEmpty(users, CredentialsOfType(login, password, "Customer"));
  }
}
