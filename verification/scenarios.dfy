/** Concrete runs of the cafe client on small tables, proved from the
    contracts of its operations alone. */
module Scenarios {
  import opened Schema
  import opened Dialogue
  import opened CafeClient

  /** A registered user logs in with the right password and not with a wrong one. */
  method RegisterThenLogIn() returns (right: Option<string>, wrong: Option<string>)
    ensures right == Some("alice") && wrong == None
  {
    var cafe := new Cafe([], [], []);
    cafe.CreateUser("alice", "pw1", "555-0100");
    assert HasCredentials(cafe.users[0], "alice", "pw1");
    right := cafe.LogIn("alice", "pw1");
    wrong := cafe.LogIn("alice", "wrong");
  }

  /** Credentials that belong to no user mark an unpaid order paid; after
      that the order editor stops at the paid check. The owning customer's
      own credentials are refused. */
  method StrangerMarksOrderPaid() returns (byOwner: bool, byStranger: bool, afterwards: Ending)
    ensures !byOwner && byStranger && afterwards == AlreadyPaid
  {
    var alice := User("alice", "pw1", "555-0100", "", "Customer");
    var cafe := new Cafe([alice], [], [Order(7, "alice", false, "noon", "3.50")]);
    var ending := cafe.UpdateOrder(7, [OrderEdit(3, "", "alice", "pw1")]);
    assert RegisteredAs(cafe.users, "alice", "pw1", "Customer") by {
      assert HasCredentials(cafe.users[0], "alice", "pw1");
    }
    byOwner := cafe.orders[0].paid;
    ending := cafe.UpdateOrder(7, [OrderEdit(3, "", "mallory", "guess")]);
    byStranger := cafe.orders[0].paid;
    afterwards := cafe.UpdateOrder(7, [OrderEdit(5, "0", "", "")]);
  }

  /** The item editor's image URL option writes the type column. */
  method ImageUrlOptionWritesType() returns (item: MenuItem)
    ensures item == MenuItem("Latte", "latte.png", "3.50", "milk", "cup.png")
  {
    var cafe := new Cafe([], [MenuItem("Latte", "Drink", "3.50", "milk", "cup.png")], []);
    cafe.UpdateItemColumn("Latte", 5, "latte.png");
    item := cafe.menu[0];
  }

  /** A customer cannot reach the modify-menu loop: the menu is unchanged
      whatever is typed, because no user is a Manager. */
  method CustomerCannotModifyMenu(steps: seq<CafeStep>) returns (same: bool)
    ensures same
  {
    var before := [MenuItem("Latte", "Drink", "3.50", "milk", "cup.png")];
    var cafe := new Cafe([User("alice", "pw1", "555-0100", "", "Customer")], before, []);
    var managers := cafe.Menu(steps);
    same := cafe.menu == before;
  }
}
