/**
 The persistence layer of the inventory app (the `DatabaseHelper` class): a
 `users` table and an `items` table, each with an AUTOINCREMENT primary key,
 and the low-stock SMS alert that an item update may trigger.

 The two tables are maps from primary key to row; each AUTOINCREMENT key
 sequence is an explicit counter; text messages handed to the platform's SMS
 service are appended to an outbox. Every public method of the class is a pure
 transition that returns the new store together with the method's result.
 */
module DatabaseHelper {
  import opened JavaLang

  /** `updateItem` sends an alert when the new quantity is below this. */
  const LowStockThreshold: int := 3

  /** What `authenticateUser` returns when no user matches. */
  const NotFound: int := -1

  /** A row of `users` (its key, `user_id`, is the map key). */
  datatype UserRecord = UserRecord(username: string, password: string,
                                   smsEnabled: bool, phoneNumber: Nullable<string>)

  /** A row of `items` (its key, `id`, is the map key). */
  datatype ItemRecord = ItemRecord(name: string, quantity: int, ownerId: int)

  /** The `Item` objects `getAllItems` returns. */
  datatype Item = Item(id: int, name: string, quantity: int)

  /** One call of `SmsManager.sendTextMessage`. */
  datatype Sms = Sms(destination: string, body: string)

  datatype Store = Store(
    users: map<int, UserRecord>,
    items: map<int, ItemRecord>,
    nextUserId: int,    // the AUTOINCREMENT sequence of users.user_id
    nextItemId: int,    // the AUTOINCREMENT sequence of items.id
    outbox: seq<Sms>    // every text message sent so far, oldest first
  )

  /** No two rows of `users` share a username (the UNIQUE column). */
  predicate UniqueUsernames(users: map<int, UserRecord>) {
    forall a, b :: a in users && b in users && users[a].username == users[b].username ==> a == b
  }

  /**
   The integrity the schema guarantees of every database the app can reach:
   keys are positive and below their AUTOINCREMENT counter, usernames are unique.
   */
  predicate Valid(s: Store): (r: bool)
    ensures r ==> s.nextUserId !in s.users && s.nextItemId !in s.items
  {
    && 1 <= s.nextUserId
    && 1 <= s.nextItemId
    && (forall id :: id in s.users ==> 1 <= id < s.nextUserId)
    && (forall id :: id in s.items ==> 1 <= id < s.nextItemId)
    && UniqueUsernames(s.users)
  }

  predicate UsernameTaken(users: map<int, UserRecord>, username: string) {
    exists id :: id in users && users[id].username == username
  }

  predicate Credentials(user: UserRecord, username: string, password: string) {
    user.username == username && user.password == password
  }

  /** The row `id` exists and belongs to `userId`: the `id = ? AND user_id = ?` filter. */
  predicate OwnedBy(items: map<int, ItemRecord>, id: int, userId: int) {
    id in items && items[id].ownerId == userId
  }

  /** Whether `sendLowStockAlert` would text this user. */
  predicate AlertsEnabled(users: map<int, UserRecord>, userId: int) {
    && userId in users
    && users[userId].smsEnabled
    && users[userId].phoneNumber.NonNull?
    && users[userId].phoneNumber.value != ""
  }

  /** The three fixed pieces of the low-stock alert, around the item name and the quantity. */
  const AlertOpening: string := "Attention, you are running low on "
  const AlertMiddle: string := " with a quantity of "
  const AlertClosing: string := ". Buy more!"

  /**
   The low-stock alert's fixed template. The item name and the quantity can be
   read back from the text: the name sits right after the opening, and the
   decimal between the middle piece and the closing is the quantity.
   */
  function LowStockMessage(itemName: string, quantity: int): (r: string)
    ensures |r| == |AlertOpening| + |itemName| + |AlertMiddle| + |IntToString(quantity)| + |AlertClosing|
    ensures r[..|AlertOpening|] == AlertOpening
    ensures r[|AlertOpening|..|AlertOpening| + |itemName|] == itemName
    ensures r[|AlertOpening| + |itemName|..|AlertOpening| + |itemName| + |AlertMiddle|] == AlertMiddle
    ensures r[|r| - |AlertClosing|..] == AlertClosing
    ensures r[|AlertOpening| + |itemName| + |AlertMiddle|..|r| - |AlertClosing|] == IntToString(quantity)
    ensures var digits := r[|AlertOpening| + |itemName| + |AlertMiddle|..|r| - |AlertClosing|];
            |digits| >= 1 && (digits[0] == '-' ==> AllDigits(digits[1..])) && (digits[0] != '-' ==> AllDigits(digits))
            && DecimalValue(digits) == quantity
  {
    var number := IntToString(quantity);
    IntToStringRoundTrip(quantity);
    SlicesOfFive(AlertOpening, itemName, AlertMiddle, number, AlertClosing);
    AlertOpening + itemName + AlertMiddle + number + AlertClosing
  }

  /** Each of five concatenated pieces is the slice at its own offset. */
  lemma SlicesOfFive(a: string, b: string, c: string, d: string, e: string)
    ensures var r := a + b + c + d + e;
            && r[..|a|] == a
            && r[|a|..|a| + |b|] == b
            && r[|a| + |b|..|a| + |b| + |c|] == c
            && r[|a| + |b| + |c|..|r| - |e|] == d
            && r[|r| - |e|..] == e
  {
    var r := a + b + c + d + e;
    assert r == (((a + b) + c) + d) + e;
  }

  // ---------------------------------------------------------------------------
  // Schema management
  // ---------------------------------------------------------------------------

  /** `onCreate`: both tables exist and are empty; both key sequences start over. */
  function OnCreate(outbox: seq<Sms>): (s: Store)
    ensures Valid(s)
    ensures s.users == map[] && s.items == map[]
    ensures s.nextUserId == 1 && s.nextItemId == 1
    ensures s.outbox == outbox
  {
    Store(map[], map[], 1, 1, outbox)
  }

  /**
   `onUpgrade`: drop both tables and recreate them, whatever the versions.
   Dropping an AUTOINCREMENT table also forgets its key sequence.
   */
  function OnUpgrade(s: Store, oldVersion: int, newVersion: int): (r: Store)
    ensures Valid(r)
    ensures r.users == map[] && r.items == map[]
    ensures r.nextUserId == 1 && r.nextItemId == 1
    ensures r.outbox == s.outbox
  {
    OnCreate(s.outbox)
  }

  // ---------------------------------------------------------------------------
  // Users
  // ---------------------------------------------------------------------------

  /**
   `db.insert("users", ...)`: a new row under the next key, or -1 (false) with
   nothing changed when the UNIQUE username constraint rejects it.
   */
  function InsertUserRow(s: Store, username: string, password: string,
                         phoneNumber: Nullable<string>): (r: (Store, bool))
    requires Valid(s)
    ensures Valid(r.0)
    ensures r.1 <==> !UsernameTaken(s.users, username)
    ensures !r.1 ==> r.0 == s
    ensures r.1 ==> && s.nextUserId !in s.users
                    && r.0.users == s.users[s.nextUserId := UserRecord(username, password, false, phoneNumber)]
                    && r.0.items == s.items
                    && r.0.outbox == s.outbox
                    && r.0.nextUserId == s.nextUserId + 1 && r.0.nextItemId == s.nextItemId
  {
    if UsernameTaken(s.users, username) then (s, false)
    else
      var s' := s.(users := s.users[s.nextUserId := UserRecord(username, password, false, phoneNumber)],
                   nextUserId := s.nextUserId + 1);
      assert UniqueUsernames(s'.users) by {
        forall a, b | a in s'.users && b in s'.users && s'.users[a].username == s'.users[b].username
          ensures a == b
        {
          if a != s.nextUserId && b != s.nextUserId {
            assert s'.users[a] == s.users[a] && s'.users[b] == s.users[b];
          }
        }
      }
      (s', true)
  }

  /** `registerUser(username, password)`: explicit duplicate check, then insert with an empty phone. */
  function RegisterUser(s: Store, username: string, password: string): (r: (Store, bool))
    requires Valid(s)
    ensures Valid(r.0)
    ensures r.1 <==> !UsernameTaken(s.users, username)
    ensures !r.1 ==> r.0 == s
    ensures r.1 ==> && s.nextUserId !in s.users
                    && r.0.users == s.users[s.nextUserId := UserRecord(username, password, false, NonNull(""))]
                    && r.0.items == s.items && r.0.outbox == s.outbox
                    && r.0.nextUserId == s.nextUserId + 1 && r.0.nextItemId == s.nextItemId
  {
    if UsernameTaken(s.users, username) then (s, false)
    else InsertUserRow(s, username, password, NonNull(""))
  }

  /** `registerUser(username, password, phoneNumber)`: no pre-check; the UNIQUE column rejects duplicates. */
  function RegisterUserWithPhone(s: Store, username: string, password: string,
                                 phoneNumber: Nullable<string>): (r: (Store, bool))
    requires Valid(s)
    ensures Valid(r.0)
    ensures r.1 <==> !UsernameTaken(s.users, username)
    ensures !r.1 ==> r.0 == s
    ensures r.1 ==> && s.nextUserId !in s.users
                    && r.0.users == s.users[s.nextUserId := UserRecord(username, password, false, phoneNumber)]
                    && r.0.items == s.items && r.0.outbox == s.outbox
                    && r.0.nextUserId == s.nextUserId + 1 && r.0.nextItemId == s.nextItemId
  {
    InsertUserRow(s, username, password, phoneNumber)
  }

  /** The first key in [lo, hi) whose row carries exactly these credentials, or NotFound. */
  function FindCredentials(users: map<int, UserRecord>, username: string, password: string,
                           lo: int, hi: int): (r: int)
    requires 0 <= lo
    ensures r == NotFound || (lo <= r < hi && r in users && Credentials(users[r], username, password))
    ensures r == NotFound <==>
              forall id :: lo <= id < hi && id in users ==> !Credentials(users[id], username, password)
    decreases hi - lo
  {
    if hi <= lo then NotFound
    else if lo in users && Credentials(users[lo], username, password) then lo
    else FindCredentials(users, username, password, lo + 1, hi)
  }

  /** `authenticateUser`: the id of the user with exactly this username and password, or -1. */
  function AuthenticateUser(s: Store, username: string, password: string): (r: int)
    requires Valid(s)
    ensures r == NotFound <==>
              forall id :: id in s.users ==> !Credentials(s.users[id], username, password)
    ensures r != NotFound ==> r in s.users && Credentials(s.users[r], username, password)
  {
    FindCredentials(s.users, username, password, 1, s.nextUserId)
  }

  /** `getUserPhoneNumber`: the stored phone, or null when there is no such user. */
  function GetUserPhoneNumber(s: Store, userId: int): (r: Nullable<string>)
    ensures userId !in s.users ==> r == Null
    ensures userId in s.users ==> r == s.users[userId].phoneNumber
  {
    if userId in s.users then s.users[userId].phoneNumber else Null
  }

  /** `updateSmsPreference`: set the flag of one user; true iff that user exists. */
  function UpdateSmsPreference(s: Store, userId: int, smsEnabled: bool): (r: (Store, bool))
    ensures Valid(s) ==> Valid(r.0)
    ensures r.1 <==> userId in s.users
    ensures r.0.items == s.items && r.0.outbox == s.outbox
    ensures r.0.nextUserId == s.nextUserId && r.0.nextItemId == s.nextItemId
    ensures r.0.users.Keys == s.users.Keys
    ensures forall id :: id in s.users && id != userId ==> r.0.users[id] == s.users[id]
    ensures r.1 ==> r.0.users[userId] == s.users[userId].(smsEnabled := smsEnabled)
    ensures !r.1 ==> r.0 == s
  {
    if userId in s.users then
      var s' := s.(users := s.users[userId := s.users[userId].(smsEnabled := smsEnabled)]);
      assert Valid(s) ==> UniqueUsernames(s'.users) by {
        if Valid(s) {
          forall a, b | a in s'.users && b in s'.users && s'.users[a].username == s'.users[b].username
            ensures a == b
          {
            assert s'.users[a].username == s.users[a].username;
            assert s'.users[b].username == s.users[b].username;
          }
        }
      }
      (s', true)
    else (s, false)
  }

  /** `getSmsPreference`: the user's flag, false when there is no such user. */
  function GetSmsPreference(s: Store, userId: int): (r: bool)
    ensures r <==> userId in s.users && s.users[userId].smsEnabled
  {
    userId in s.users && s.users[userId].smsEnabled
  }

  /** `clearUsersTable`: delete every user; items stay, and so does the key sequence. */
  function ClearUsersTable(s: Store): (r: Store)
    ensures Valid(s) ==> Valid(r)
    ensures r.users == map[]
    ensures r.items == s.items && r.outbox == s.outbox
    ensures r.nextUserId == s.nextUserId && r.nextItemId == s.nextItemId
  {
    s.(users := map[])
  }

  // ---------------------------------------------------------------------------
  // Items
  // ---------------------------------------------------------------------------

  /** `insertItem`: a new row under the next key; nothing in the schema can reject it. */
  function InsertItem(s: Store, name: string, quantity: int, userId: int): (r: (Store, bool))
    requires Valid(s)
    ensures Valid(r.0)
    ensures r.1
    ensures s.nextItemId !in s.items
    ensures r.0.items == s.items[s.nextItemId := ItemRecord(name, quantity, userId)]
    ensures r.0.users == s.users && r.0.outbox == s.outbox && r.0.nextUserId == s.nextUserId
    ensures r.0.nextItemId > s.nextItemId
  {
    (s.(items := s.items[s.nextItemId := ItemRecord(name, quantity, userId)],
        nextItemId := s.nextItemId + 1),
     true)
  }

  /** The `Item` view of the row under `id`. */
  function ItemAt(items: map<int, ItemRecord>, id: int): Item
    requires id in items
  {
    Item(id, items[id].name, items[id].quantity)
  }

  /** The rows of `userId` with keys in [lo, hi), in key order. */
  function ScanItems(items: map<int, ItemRecord>, userId: int, lo: int, hi: int): (r: seq<Item>)
    ensures forall it :: it in r ==>
              lo <= it.id < hi && it.id in items && items[it.id] == ItemRecord(it.name, it.quantity, userId)
    ensures forall id :: lo <= id < hi && OwnedBy(items, id, userId) ==> ItemAt(items, id) in r
    ensures forall a, b :: 0 <= a < b < |r| ==> r[a].id < r[b].id
    decreases hi - lo
  {
    if hi <= lo then []
    else
      var rest := ScanItems(items, userId, lo + 1, hi);
      if OwnedBy(items, lo, userId) then [ItemAt(items, lo)] + rest else rest
  }

  /** `getAllItems`: exactly the items of `userId`, each once. */
  function GetAllItems(s: Store, userId: int): (r: seq<Item>)
    requires Valid(s)
    ensures forall it :: it in r <==>
              it.id in s.items && s.items[it.id] == ItemRecord(it.name, it.quantity, userId)
    ensures forall a, b :: 0 <= a < b < |r| ==> r[a].id != r[b].id
  {
    var r := ScanItems(s.items, userId, 1, s.nextItemId);
    assert forall it: Item :: it.id in s.items && s.items[it.id] == ItemRecord(it.name, it.quantity, userId)
                        ==> it == ItemAt(s.items, it.id);
    r
  }

  /** `sendLowStockAlert`: text the user if they opted in and have a non-empty phone number. */
  function SendLowStockAlert(s: Store, userId: int, itemName: string, quantity: int): (r: Store)
    ensures r.users == s.users && r.items == s.items
    ensures r.nextUserId == s.nextUserId && r.nextItemId == s.nextItemId
    ensures AlertsEnabled(s.users, userId) ==>
              r.outbox == s.outbox + [Sms(s.users[userId].phoneNumber.value, LowStockMessage(itemName, quantity))]
    ensures !AlertsEnabled(s.users, userId) ==> r.outbox == s.outbox
  {
    if userId in s.users then
      var user := s.users[userId];
      if user.smsEnabled && user.phoneNumber.NonNull? && user.phoneNumber.value != "" then
        s.(outbox := s.outbox + [Sms(user.phoneNumber.value, LowStockMessage(itemName, quantity))])
      else s
    else s
  }

  /**
   `updateItem`: rewrite name and quantity of the row with this key and owner;
   then, whether or not a row matched, alert on a quantity below the threshold.
   */
  function UpdateItem(s: Store, itemId: int, name: string, quantity: int, userId: int): (r: (Store, bool))
    ensures Valid(s) ==> Valid(r.0)
    ensures r.1 <==> OwnedBy(s.items, itemId, userId)
    ensures r.0.users == s.users
    ensures r.0.nextUserId == s.nextUserId && r.0.nextItemId == s.nextItemId
    ensures r.1 ==> r.0.items == s.items[itemId := ItemRecord(name, quantity, userId)]
    ensures !r.1 ==> r.0.items == s.items
    ensures r.0.items.Keys == s.items.Keys
    ensures forall id :: id in s.items && id != itemId ==> r.0.items[id] == s.items[id]
    ensures quantity < LowStockThreshold && AlertsEnabled(s.users, userId) ==>
              r.0.outbox == s.outbox + [Sms(s.users[userId].phoneNumber.value, LowStockMessage(name, quantity))]
    ensures !(quantity < LowStockThreshold && AlertsEnabled(s.users, userId)) ==> r.0.outbox == s.outbox
  {
    var matched := OwnedBy(s.items, itemId, userId);
    var updated := if matched then s.(items := s.items[itemId := ItemRecord(name, quantity, userId)]) else s;
    var alerted := if quantity < LowStockThreshold then SendLowStockAlert(updated, userId, name, quantity)
                   else updated;
    (alerted, matched)
  }

  /** `deleteItem`: remove the row with this key and owner; true iff one was removed. */
  function DeleteItem(s: Store, itemId: int, userId: int): (r: (Store, bool))
    ensures Valid(s) ==> Valid(r.0)
    ensures r.1 <==> OwnedBy(s.items, itemId, userId)
    ensures r.1 ==> r.0.items.Keys == s.items.Keys - {itemId}
    ensures forall id :: id in r.0.items ==> id in s.items && r.0.items[id] == s.items[id]
    ensures !r.1 ==> r.0 == s
    ensures r.0.users == s.users && r.0.outbox == s.outbox
    ensures r.0.nextUserId == s.nextUserId && r.0.nextItemId == s.nextItemId
  {
    if OwnedBy(s.items, itemId, userId) then (s.(items := s.items - {itemId}), true)
    else (s, false)
  }

  /** `clearItemsForUser`: delete every row of `userId` and nothing else. */
  function ClearItemsForUser(s: Store, userId: int): (r: Store)
    ensures Valid(s) ==> Valid(r)
    ensures forall id :: id in r.items <==> id in s.items && s.items[id].ownerId != userId
    ensures forall id :: id in r.items ==> r.items[id] == s.items[id]
    ensures r.users == s.users && r.outbox == s.outbox
    ensures r.nextUserId == s.nextUserId && r.nextItemId == s.nextItemId
  {
    s.(items := map id | id in s.items && s.items[id].ownerId != userId :: s.items[id])
  }

  /** `clearDatabase`: delete every user and every item; the key sequences keep counting. */
  function ClearDatabase(s: Store): (r: Store)
    ensures Valid(s) ==> Valid(r)
    ensures r.users == map[] && r.items == map[]
    ensures r.nextUserId == s.nextUserId && r.nextItemId == s.nextItemId
    ensures r.outbox == s.outbox
  {
    s.(users := map[], items := map[])
  }
}
