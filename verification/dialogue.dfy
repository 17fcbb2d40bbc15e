/** What the user types at each menu of the cafe client, and how a submenu
    ends. Each menu level reads a sequence of steps; a step holds the integer
    choice typed at that level and the lines the chosen branch reads. A
    submenu reads its own sequence, carried by the step that enters it. */
module Dialogue {
  import opened Schema

  datatype Option<T> = None | Some(value: T)

  /** How a submenu loop ended. */
  datatype Ending =
    | ExitChosen        // the user chose 9
    | InputEnded        // no more steps were typed
    | NotFound          // the existence check found no row
    | AlreadyPaid       // the order has no unpaid row
    | StatementFailed   // the store rejected a statement; the exception ends the submenu

  /** One pass of the main menu: choice 1 reads login, password and phone,
      choice 2 reads login and password and, on success, runs `userMenu`. */
  datatype MainStep = MainStep(choice: int, login: string, password: string, phone: string, userMenu: seq<UserStep>)

  /** One pass of the logged-in menu: choice 1 runs `cafeMenu`, choice 2
      reads the credentials and runs `profile`, choice 4 reads the order id
      and runs `orderEdits`. */
  datatype UserStep = UserStep(
    choice: int,
    cafeMenu: seq<CafeStep>,
    login: string, password: string, profile: seq<ProfileStep>,
    orderId: int, orderEdits: seq<OrderEdit>)

  /** One pass of the cafe menu: choice 1 browses with `browse`, choice 2 asks
      for manager credentials and, if they pass, runs `modifyMenu`. */
  datatype CafeStep = CafeStep(choice: int, browse: seq<BrowseStep>, login: string, password: string, modifyMenu: seq<ModifyStep>)

  /** One search: choice 1 by item name, choice 2 by item type. */
  datatype BrowseStep = BrowseStep(choice: int, text: string)

  /** One pass of the modify-menu loop: choice 1 adds `newItem` (the five
      lines typed), choice 2 deletes `name`, choice 3 runs the item editor. */
  datatype ModifyStep = ModifyStep(choice: int, newItem: MenuItem, name: string, edits: seq<ItemEdit>)

  /** One pass of the item editor: the item's name, then the column choice and the new value. */
  datatype ItemEdit = ItemEdit(name: string, choice: int, value: string)

  /** One pass of the profile editor: `value` for choices 1-4; `target` and
      the role choice `role` for choice 5. */
  datatype ProfileStep = ProfileStep(choice: int, value: string, target: string, role: int)

  /** One pass of the order editor: `value` for choices 1, 2, 4 and 5; the
      credentials for choice 3. */
  datatype OrderEdit = OrderEdit(choice: int, value: string, login: string, password: string)
}
