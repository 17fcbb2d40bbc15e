/** The three tables of the cafe database, and the WHERE and SET clauses the
    client builds over them. Every column holds the text the client wrote into
    its SQL, except the order id (an integer) and the paid flag (a boolean). */
module Schema {
  import opened Tables

  /** A USERS row; `userType` is the `type` column. The client reads the roles
      "Customer", "Employee" and "Manager" from it, but it can hold any text. */
  datatype User = User(login: string, password: string, phoneNum: string, favItems: string, userType: string)

  /** A MENU row; `itemType` is the `type` column. */
  datatype MenuItem = MenuItem(itemName: string, itemType: string, price: string, description: string, imageURL: string)

  /** An ORDERS row. */
  datatype Order = Order(orderId: int, login: string, paid: bool, timeStampReceived: string, total: string)

  /** The whole database behind the connection. */
  datatype Db = Db(users: seq<User>, menu: seq<MenuItem>, orders: seq<Order>)

  /** The row carries this login and password. */
  predicate HasCredentials(u: User, login: string, password: string)
  {
    u.login == login && u.password == password
  }

  /** Some USERS row carries these credentials. */
  predicate Registered(users: seq<User>, login: string, password: string)
  {
    exists i :: 0 <= i < |users| && HasCredentials(users[i], login, password)
  }

  /** Some USERS row carries these credentials and this type. */
  predicate RegisteredAs(users: seq<User>, login: string, password: string, userType: string)
  {
    exists i :: 0 <= i < |users| && HasCredentials(users[i], login, password) && users[i].userType == userType
  }

  // WHERE clauses. Each one's contract says when a query built with it
  // returns at least one row, which is what the client's count tests ask.

  /** `login = '...' AND password = '...'` */
  function Credentials(login: string, password: string): (where: User -> bool)
    ensures forall users: seq<User> :: |Select(users, where)| > 0 <==> Registered(users, login, password)
  {
    var where := (u: User) => HasCredentials(u, login, password);
    SelectNonEmptyEverywhere(where);
    where
  }

  /** `login = '...' AND password = '...' AND type = '...'` */
  function CredentialsOfType(login: string, password: string, userType: string): (where: User -> bool)
    ensures forall users: seq<User> :: |Select(users, where)| > 0 <==> RegisteredAs(users, login, password, userType)
  {
    var where := (u: User) => HasCredentials(u, login, password) && u.userType == userType;
    SelectNonEmptyEverywhere(where);
    where
  }

  /** `login = '...'` */
  function LoginIs(login: string): (where: User -> bool)
    ensures forall users: seq<User> :: |Select(users, where)| > 0 <==> exists i :: 0 <= i < |users| && users[i].login == login
  {
    var where := (u: User) => u.login == login;
    SelectNonEmptyEverywhere(where);
    where
  }

  /** `itemName = '...'` */
  function Named(name: string): (where: MenuItem -> bool)
    ensures forall menu: seq<MenuItem> :: |Select(menu, where)| > 0 <==> exists i :: 0 <= i < |menu| && menu[i].itemName == name
  {
    var where := (m: MenuItem) => m.itemName == name;
    SelectNonEmptyEverywhere(where);
    where
  }

  /** The rows a `DELETE FROM MENU WHERE itemName = '...'` keeps. */
  function NotNamed(name: string): MenuItem -> bool
  {
    (m: MenuItem) => m.itemName != name
  }

  /** `type = '...'` */
  function OfType(itemType: string): (where: MenuItem -> bool)
    ensures forall menu: seq<MenuItem> :: |Select(menu, where)| > 0 <==> exists i :: 0 <= i < |menu| && menu[i].itemType == itemType
  {
    var where := (m: MenuItem) => m.itemType == itemType;
    SelectNonEmptyEverywhere(where);
    where
  }

  /** `orderid = '...'` */
  function OrderIdIs(id: int): (where: Order -> bool)
    ensures forall orders: seq<Order> :: |Select(orders, where)| > 0 <==> exists i :: 0 <= i < |orders| && orders[i].orderId == id
  {
    var where := (o: Order) => o.orderId == id;
    SelectNonEmptyEverywhere(where);
    where
  }

  /** `orderid = '...' AND paid = 'false'` */
  function UnpaidOrderIdIs(id: int): (where: Order -> bool)
    ensures forall orders: seq<Order> ::
              |Select(orders, where)| > 0 <==> exists i :: 0 <= i < |orders| && orders[i].orderId == id && !orders[i].paid
  {
    var where := (o: Order) => o.orderId == id && !o.paid;
    SelectNonEmptyEverywhere(where);
    where
  }

  // SET clauses. Each one's contract says which column it writes and that
  // every other column keeps its value.

  function SetLogin(v: string): (assign: User -> User)
    ensures forall u :: assign(u).login == v && assign(u).(login := u.login) == u
  {
    (u: User) => u.(login := v)
  }

  function SetPhoneNum(v: string): (assign: User -> User)
    ensures forall u :: assign(u).phoneNum == v && assign(u).(phoneNum := u.phoneNum) == u
  {
    (u: User) => u.(phoneNum := v)
  }

  function SetPassword(v: string): (assign: User -> User)
    ensures forall u :: assign(u).password == v && assign(u).(password := u.password) == u
  {
    (u: User) => u.(password := v)
  }

  function SetFavItems(v: string): (assign: User -> User)
    ensures forall u :: assign(u).favItems == v && assign(u).(favItems := u.favItems) == u
  {
    (u: User) => u.(favItems := v)
  }

  function SetUserType(v: string): (assign: User -> User)
    ensures forall u :: assign(u).userType == v && assign(u).(userType := u.userType) == u
  {
    (u: User) => u.(userType := v)
  }

  function SetItemName(v: string): (assign: MenuItem -> MenuItem)
    ensures forall m :: assign(m).itemName == v && assign(m).(itemName := m.itemName) == m
  {
    (m: MenuItem) => m.(itemName := v)
  }

  function SetItemType(v: string): (assign: MenuItem -> MenuItem)
    ensures forall m :: assign(m).itemType == v && assign(m).(itemType := m.itemType) == m
  {
    (m: MenuItem) => m.(itemType := v)
  }

  function SetPrice(v: string): (assign: MenuItem -> MenuItem)
    ensures forall m :: assign(m).price == v && assign(m).(price := m.price) == m
  {
    (m: MenuItem) => m.(price := v)
  }

  function SetDescription(v: string): (assign: MenuItem -> MenuItem)
    ensures forall m :: assign(m).description == v && assign(m).(description := m.description) == m
  {
    (m: MenuItem) => m.(description := v)
  }

  /** `SET paid = true` */
  function MarkPaid(): (assign: Order -> Order)
    ensures forall o :: assign(o).paid && assign(o).(paid := o.paid) == o
  {
    (o: Order) => o.(paid := true)
  }

  /** How the ORDERS table may evolve under the client: no row is added or
      removed, and the only column that changes is `paid`, from false to true. */
  predicate PaidOnlyRises(before: seq<Order>, after: seq<Order>)
  {
    && |after| == |before|
    && forall i :: 0 <= i < |before| ==>
         after[i] == before[i].(paid := after[i].paid) && (before[i].paid ==> after[i].paid)
  }
}
