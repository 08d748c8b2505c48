# Inventory app persistence core, modelled in Dafny

This project models the data layer of a small Android inventory app. The app
keeps user accounts and per-user inventory items in a two-table SQLite
database. When an item update leaves the quantity below 3, the app texts the
owner a low-stock alert, provided the owner opted in.

The model covers four parts of the app:

- **`DatabaseHelper`** (`database_helper.dfy`). The store is an immutable
  `Store` value. It holds the `users` and `items` tables as maps from primary
  key to row. It also holds the two AUTOINCREMENT key sequences as counters,
  and an outbox that records every message handed to the SMS service. Each
  public method of the class is a pure function that returns the new store
  and the method's result. `Valid` is the integrity the schema guarantees:
  keys are positive and below their counter, and usernames are unique.
  `OnCreate` establishes it, and every transition ensures it is kept.
  Properties relating several operations are in
  `database_helper_properties.dfy`.
- **`DatabaseController`** (`database_controller.dfy`). This is the façade.
  Its only logic is the `addItem` guard; every other method passes through.
- **`SMSActivity`** (`sms_activity.dfy`). This covers the phone-number text
  watcher, written as a loop that mirrors the source and proved equal to a
  reference layout. It also covers the checks `sendSMS` makes before sending.
- **`RegisterActivity`** (`register_activity.dfy`). This covers the checks
  on the registration form, followed by the store call.

Two more files support these. `java_lang.dfy` holds the Java semantics the
code relies on: `String.trim`, the ASCII `\d` class, and `int`-to-decimal
rendering. `scenarios.dfy` walks one complete session from register to
delete.

Clocks, randomness and the network do not occur in this core. The
only foreign call is `SmsManager.sendTextMessage`. In `sendLowStockAlert` it
is modelled as appending an `Sms` to `Store.outbox`. In `sendSMS` it is
modelled as the `Attempt` result of `SendSms`, which carries the phone number
and message the call is made with; no store is involved.

Some operations require `Valid(s)`: the two `registerUser` overloads,
`insertItem`/`addItem`, `authenticateUser` and `getAllItems`. Every database
the app can reach satisfies `Valid`. The key-sequence bound is what makes
the new key fresh, and what lets the lookups scan keys in order.

Three behaviours of the code are easy to miss:

- The three-argument `registerUser` makes no existence check; it relies on
  the UNIQUE column making the insert fail. Only the two-argument overload
  checks first. `RegisterOverloadsAgree` proves that both give the same result.
- `updateItem` tests the *argument* quantity. So the alert can fire even when
  no row matched.
- `clearDatabase` and `clearUsersTable` use DELETE, which keeps the
  AUTOINCREMENT sequences. Only `onUpgrade` (DROP TABLE) starts them over.

## Model

| member | source | states |
|---|---|---|
| JavaLang.Trim | app/src/main/java/com/zybooks/inventorymapp/DatabaseController.java:31 | `trim()` removes a blank prefix and a blank suffix (characters at or below U+0020), leaving a contiguous slice whose ends are non-blank; the result is empty exactly when the whole input is blank |
| JavaLang.TrimIdempotent | app/src/main/java/com/zybooks/inventorymapp/RegisterActivity.java:69-71 | trimming an already trimmed field changes nothing |
| JavaLang.IntToString | app/src/main/java/com/zybooks/inventorymapp/DatabaseHelper.java:259 | the quantity in the alert text is rendered as a '-' sign only for negatives, followed by at least one ASCII digit with no leading zero (the only rendering starting with '0' is "0") |
| JavaLang.NatToString | app/src/main/java/com/zybooks/inventorymapp/DatabaseHelper.java:259 | the digits of a non-negative quantity are ASCII digits with no leading zero; 0 is rendered as the single digit "0" |
| JavaLang.IntToStringRoundTrip | app/src/main/java/com/zybooks/inventorymapp/DatabaseHelper.java:259 | reading the rendered quantity back as a decimal gives the original int |
| JavaLang.IntToStringInjective | app/src/main/java/com/zybooks/inventorymapp/DatabaseHelper.java:259 | different quantities give different renderings in the alert |
| DatabaseHelper.Valid | app/src/main/java/com/zybooks/inventorymapp/DatabaseHelper.java:40-52 | the integrity the schema keeps: keys are positive and below their AUTOINCREMENT counter and usernames are UNIQUE, so the next key of either table is never in use |
| DatabaseHelper.LowStockMessage | app/src/main/java/com/zybooks/inventorymapp/DatabaseHelper.java:259 | the alert is the fixed opening, the item name, the fixed middle, the quantity exactly as `String.valueOf` renders it and the fixed closing, so both the name and the quantity can be read back from the text |
| DatabaseHelper.OnCreate | app/src/main/java/com/zybooks/inventorymapp/DatabaseHelper.java:39-56 | a newly created schema has no users and no items, both AUTOINCREMENT sequences start at 1, and it satisfies the integrity invariant |
| DatabaseHelper.OnUpgrade | app/src/main/java/com/zybooks/inventorymapp/DatabaseHelper.java:59-63 | an upgrade between any two versions drops all users and items, restarts both AUTOINCREMENT sequences at 1 (unlike clearDatabase) and leaves a valid empty store; messages already sent stay sent |
| DatabaseHelper.InsertUserRow | app/src/main/java/com/zybooks/inventorymapp/DatabaseHelper.java:40-45 | inserting a user succeeds iff the username is not taken (UNIQUE column); on success exactly one row is added under a fresh key with sms off; on failure nothing changes |
| DatabaseHelper.RegisterUser | app/src/main/java/com/zybooks/inventorymapp/DatabaseHelper.java:125-148 | the two-argument overload returns false and changes nothing when the username exists; otherwise it adds exactly one user, under a fresh key, with sms off and an empty phone, and leaves every other user, the items, the item key sequence and the outbox as they were |
| DatabaseHelper.RegisterUserWithPhone | app/src/main/java/com/zybooks/inventorymapp/DatabaseHelper.java:235-246 | the three-argument overload returns true iff the username was free; it then adds exactly that user under a fresh key with the given phone and sms off, leaving every other user, the items, the item key sequence and the outbox alone; otherwise the store is unchanged |
| DatabaseHelper.FindCredentials | app/src/main/java/com/zybooks/inventorymapp/DatabaseHelper.java:153-159 | a scan of the keys in a range returns a key whose row matches both username and password, or -1 exactly when no key in the range matches |
| DatabaseHelper.AuthenticateUser | app/src/main/java/com/zybooks/inventorymapp/DatabaseHelper.java:151-163 | returns -1 iff no user has exactly this username and password; otherwise returns the id of such a user |
| DatabaseHelper.GetUserPhoneNumber | app/src/main/java/com/zybooks/inventorymapp/DatabaseHelper.java:66-80 | returns the stored phone of an existing user and null for a missing one |
| DatabaseHelper.UpdateSmsPreference | app/src/main/java/com/zybooks/inventorymapp/DatabaseHelper.java:210-218 | returns true iff the user exists; then only that user's sms flag changes, to the given value, and items, both key sequences and the outbox stay as they were; otherwise nothing changes |
| DatabaseHelper.GetSmsPreference | app/src/main/java/com/zybooks/inventorymapp/DatabaseHelper.java:221-232 | true iff the user exists and has sms enabled, so false for a missing user |
| DatabaseHelper.ClearUsersTable | app/src/main/java/com/zybooks/inventorymapp/DatabaseHelper.java:83-87 | empties users, keeps every item (orphans included) and both key sequences |
| DatabaseHelper.InsertItem | app/src/main/java/com/zybooks/inventorymapp/DatabaseHelper.java:166-179 | always succeeds and adds exactly one item, under a key not in use, with the given name, quantity and owner; users unchanged |
| DatabaseHelper.ScanItems | app/src/main/java/com/zybooks/inventorymapp/DatabaseHelper.java:193-203 | scanning keys in a range yields exactly the rows of the owner in that range, each once, with their stored name and quantity |
| DatabaseHelper.GetAllItems | app/src/main/java/com/zybooks/inventorymapp/DatabaseHelper.java:190-207 | an item is listed iff a row with that id, name and quantity belongs to the user; no id is listed twice |
| DatabaseHelper.SendLowStockAlert | app/src/main/java/com/zybooks/inventorymapp/DatabaseHelper.java:249-266 | appends one message with the fixed template to the user's phone iff the user exists, has sms enabled and a non-null, non-empty phone; tables untouched |
| DatabaseHelper.UpdateItem | app/src/main/java/com/zybooks/inventorymapp/DatabaseHelper.java:106-122 | returns true iff the item exists and belongs to the user; only that row's name and quantity change, and the quantity is not range-checked; with quantity below 3 exactly one alert is appended iff alerts are enabled for the user, even when no row matched; otherwise the outbox is unchanged |
| DatabaseHelper.DeleteItem | app/src/main/java/com/zybooks/inventorymapp/DatabaseHelper.java:90-96 | returns true iff the item exists and belongs to the user; then exactly that row is removed; otherwise nothing changes; users untouched |
| DatabaseHelper.ClearItemsForUser | app/src/main/java/com/zybooks/inventorymapp/DatabaseHelper.java:99-103 | removes exactly the user's items and keeps every other item as it was |
| DatabaseHelper.ClearDatabase | app/src/main/java/com/zybooks/inventorymapp/DatabaseHelper.java:182-187 | no users and no items remain; the key sequences keep counting |
| DatabaseHelperProperties.DuplicateRegistrationRejected | app/src/main/java/com/zybooks/inventorymapp/DatabaseHelper.java:129-134 | once a username is registered, both overloads refuse it again and leave users and items unchanged |
| DatabaseHelperProperties.RegisterOverloadsAgree | app/src/main/java/com/zybooks/inventorymapp/DatabaseHelper.java:125-148 | the explicit pre-check is redundant: the two-argument overload behaves as the three-argument one with an empty phone |
| DatabaseHelperProperties.RegisteredUserDefaults | app/src/main/java/com/zybooks/inventorymapp/DatabaseHelper.java:237-241 | after a successful registration the credentials authenticate to a new id whose sms flag is false and whose phone reads back as registered |
| DatabaseHelperProperties.AuthenticateFindsUser | app/src/main/java/com/zybooks/inventorymapp/DatabaseHelper.java:151-163 | every stored user authenticates with its exact username and password to its own id |
| DatabaseHelperProperties.SmsPreferenceRoundTrip | app/src/main/java/com/zybooks/inventorymapp/DatabaseHelper.java:210-232 | after updateSmsPreference(u, b) succeeds getSmsPreference(u) is b; after it fails getSmsPreference(u) is false; other users' flags and all phones are unchanged |
| DatabaseHelperProperties.ClearUsersTableKeepsItems | app/src/main/java/com/zybooks/inventorymapp/DatabaseHelper.java:83-87 | after clearing users nobody authenticates, yet every user's item listing is unchanged |
| DatabaseHelperProperties.ListingIsolated | app/src/main/java/com/zybooks/inventorymapp/DatabaseHelper.java:193 | an item listed for one user is never listed for another |
| DatabaseHelperProperties.ScanAgree | app/src/main/java/com/zybooks/inventorymapp/DatabaseHelper.java:193-203 | two tables that agree on one owner's rows in a key range list the same items for that owner |
| DatabaseHelperProperties.ScanExtend | app/src/main/java/com/zybooks/inventorymapp/DatabaseHelper.java:193-203 | adding a row past the scanned range adds it to the owner's scan and to no other owner's |
| DatabaseHelperProperties.InsertThenList | app/src/main/java/com/zybooks/inventorymapp/DatabaseHelper.java:166-179 | after insertItem the owner's listing gains exactly the new item under a fresh id, and grows by one; other users' listings are unchanged |
| DatabaseHelperProperties.UpdateThenList | app/src/main/java/com/zybooks/inventorymapp/DatabaseHelper.java:106-122 | after a successful update the owner's listing shows the new name and quantity under that id and no stale version, and every other item of the owner stays listed; a failed update changes no listing; other users' listings never change |
| DatabaseHelperProperties.DeleteThenList | app/src/main/java/com/zybooks/inventorymapp/DatabaseHelper.java:90-96 | deleteItem returns true iff the item was in the owner's listing; afterwards the listing is the old one without that id; other listings unchanged |
| DatabaseHelperProperties.ClearItemsForUserThenList | app/src/main/java/com/zybooks/inventorymapp/DatabaseHelper.java:99-103 | after clearItemsForUser(u), u's listing is empty and every other listing is unchanged |
| DatabaseHelperProperties.ResetsEmptyTheStore | app/src/main/java/com/zybooks/inventorymapp/DatabaseHelper.java:59-63 | after clearDatabase or onUpgrade the store is valid, nobody authenticates and every listing is empty |
| DatabaseHelperProperties.ItemIdsNeverReused | app/src/main/java/com/zybooks/inventorymapp/DatabaseHelper.java:182-187 | after clearDatabase a new item gets a key above every key the table held before (AUTOINCREMENT never reuses keys) |
| DatabaseController.AddItem | app/src/main/java/com/zybooks/inventorymapp/DatabaseController.java:30-35 | fails and leaves the store unchanged iff the name is null, blank after trim, or the quantity is not positive; otherwise it is insertItem with the untrimmed name |
| DatabaseController.GetAllItems | app/src/main/java/com/zybooks/inventorymapp/DatabaseController.java:38-40 | adds no validation: the store's listing |
| DatabaseController.UpdateSmsPreference | app/src/main/java/com/zybooks/inventorymapp/DatabaseController.java:44-46 | adds no validation: the store's updateSmsPreference |
| DatabaseController.UpdateItem | app/src/main/java/com/zybooks/inventorymapp/DatabaseController.java:50-52 | adds no validation: the store's updateItem, whatever the quantity |
| DatabaseController.DeleteItem | app/src/main/java/com/zybooks/inventorymapp/DatabaseController.java:55-57 | adds no validation: the store's deleteItem |
| DatabaseController.GetSmsPreference | app/src/main/java/com/zybooks/inventorymapp/DatabaseController.java:59-61 | adds no validation: the store's getSmsPreference |
| DatabaseController.SetSmsPreference | app/src/main/java/com/zybooks/inventorymapp/DatabaseController.java:63-65 | the store's updateSmsPreference |
| DatabaseController.ClearDatabase | app/src/main/java/com/zybooks/inventorymapp/DatabaseController.java:71-73 | adds no validation: the store's clearDatabase |
| DatabaseController.AddItemGuard | app/src/main/java/com/zybooks/inventorymapp/DatabaseController.java:31-33 | addItem succeeds exactly for a non-null, non-blank name and a positive quantity; a refused call leaves the store unchanged |
| DatabaseController.AddItemKeepsUntrimmedName | app/src/main/java/com/zybooks/inventorymapp/DatabaseController.java:34 | an accepted name is stored and listed exactly as given, surrounding blanks included |
| DatabaseController.TwoAddsYieldTwoItems | app/src/androidTest/java/com/zybooks/inventorymapp/DatabaseControllerTest.java:62-70 | after clearDatabase, two valid addItem calls for one user both succeed and that user's listing has exactly two items |
| DatabaseController.UpdateItemAcceptsNonPositiveQuantity | app/src/main/java/com/zybooks/inventorymapp/DatabaseController.java:50-52 | unlike addItem, updateItem stores a quantity of zero or below on an owned item and reports success |
| DatabaseController.SetAndUpdateSmsPreferenceAgree | app/src/main/java/com/zybooks/inventorymapp/DatabaseController.java:63-65 | setSmsPreference and updateSmsPreference are the same transition |
| SmsActivity.StripDashes | app/src/main/java/com/zybooks/inventorymapp/SMSActivity.java:125 | the result contains no dash, is no longer than the input, and is the input itself when the input has no dash |
| SmsActivity.StripDashesKeepsOthers | app/src/main/java/com/zybooks/inventorymapp/SMSActivity.java:125 | removing dashes shortens the text by its number of dashes and keeps every other character as often as it occurs |
| SmsActivity.StripDashesConcat | app/src/main/java/com/zybooks/inventorymapp/SMSActivity.java:125 | removing dashes distributes over concatenation |
| SmsActivity.DashedStep | app/src/main/java/com/zybooks/inventorymapp/SMSActivity.java:130-135 | each loop step appends the pending dash (after the 3rd or 6th character, once another character follows) and the next character |
| SmsActivity.FormatPhoneNumber | app/src/main/java/com/zybooks/inventorymapp/SMSActivity.java:120-139 | the watcher's loop produces the reference layout of the dash-free input: a dash after the 3rd and 6th characters only when more characters follow |
| SmsActivity.FormatKeepsCharacters | app/src/main/java/com/zybooks/inventorymapp/SMSActivity.java:125-135 | removing all dashes from the output gives the input with all dashes removed |
| SmsActivity.FormatLength | app/src/main/java/com/zybooks/inventorymapp/SMSActivity.java:129-135 | with n dash-free characters the output length is n, plus 1 if n > 3, plus 1 if n > 6 |
| SmsActivity.FormatDashPositions | app/src/main/java/com/zybooks/inventorymapp/SMSActivity.java:132-134 | dashes appear only at indices 3 and 7, at 3 iff n > 3, at 7 iff n > 6, and the output never ends with a dash |
| SmsActivity.FormatIdempotent | app/src/main/java/com/zybooks/inventorymapp/SMSActivity.java:121-137 | formatting the watcher's own output returns it unchanged |
| SmsActivity.MatchesPhonePattern | app/src/main/java/com/zybooks/inventorymapp/SMSActivity.java:74 | `\d{3}-\d{3}-\d{4}` matched against the whole string: twelve characters, dashes exactly at indices 3 and 7, ASCII digits everywhere else |
| SmsActivity.TenDigitsFormatAsPhone | app/src/main/java/com/zybooks/inventorymapp/SMSActivity.java:74 | ten dash-free digits are formatted as DDD-DDD-DDDD, which matches the send pattern |
| SmsActivity.PhonePatternIsFormatted | app/src/main/java/com/zybooks/inventorymapp/SMSActivity.java:74 | a phone matching the send pattern carries exactly ten digits and is a fixed point of the watcher |
| SmsActivity.SendSms | app/src/main/java/com/zybooks/inventorymapp/SMSActivity.java:68-90 | a send is attempted iff the trimmed phone and message are both non-empty and the trimmed phone fully matches DDD-DDD-DDDD; it sends the trimmed values; an empty field is reported before the format |
| SmsActivity.TypedTenDigitsAreSent | app/src/main/java/com/zybooks/inventorymapp/SMSActivity.java:69-81 | whatever dashes the user typed around ten digits, the formatted field passes the send checks with any non-blank message |
| RegisterActivity.IsTenDigitPhone | app/src/main/java/com/zybooks/inventorymapp/RegisterActivity.java:78 | `\d{10}` matched against the whole string; a phone that passes is not blank and holds no dash, so it is stored as entered |
| RegisterActivity.RegisteredPhoneIsSendable | app/src/main/java/com/zybooks/inventorymapp/RegisterActivity.java:78 | a phone accepted at registration is laid out by the SMS screen's watcher as DDD-DDD-DDDD over the same ten digits, which the send check accepts |
| RegisterActivity.SubmitRegistration | app/src/main/java/com/zybooks/inventorymapp/RegisterActivity.java:68-94 | a blank field is refused first and a phone that is not exactly ten ASCII digits second, both without touching the store; valid input registers the trimmed username, password and phone, and succeeds iff the trimmed username was free |
| RegisterActivity.RegistrationStoresTrimmedFields | app/src/main/java/com/zybooks/inventorymapp/RegisterActivity.java:69-83 | after a successful submission the trimmed credentials authenticate to a new user with sms off and the trimmed ten-digit phone on record |
| RegisterActivity.SecondSubmissionRejected | app/src/main/java/com/zybooks/inventorymapp/RegisterActivity.java:83-93 | a second valid submission with the same trimmed username reports that the username exists and leaves the store unchanged |
| InventoryScenarios.WidgetAlertText | app/src/main/java/com/zybooks/inventorymapp/DatabaseHelper.java:259 | the alert for 2 Widgets reads "Attention, you are running low on Widget with a quantity of 2. Buy more!" |
| InventoryScenarios.LowStockSession | app/src/main/java/com/zybooks/inventorymapp/DatabaseHelper.java:106-122 | a session through registerUser, addItem, updateSmsPreference, updateItem (with its low-stock alert) and deleteItem on a fresh database: alice registers and logs in as user 1; Widget×5 is added and listed; after enabling sms, an update to 2 succeeds, is listed and sends exactly one alert with the template text; the delete succeeds and the listing is empty |

## Left out

- SQLite mechanics are not modelled: connections, cursors, `close()` and SQL text. Tables are maps.
- The `DatabaseHelper` constructor and its `Context` are not modelled.
- Row order from `getAllItems` is left open, because the query has no ORDER BY. `GetAllItems`'s contract states membership and distinct ids only. The scan (`ScanItems`) and the lemmas that say a listing is unchanged compare sequences in key order, which SQLite's rowid scan produces but a query without ORDER BY does not promise.
- Referential integrity is not modelled. The foreign key is declared but not enforced, and `clearUsersTable` leaves orphan items, so no "owner exists" invariant is claimed.
- Inserts can fail for other reasons, such as a full disk or a read-only database. Only the UNIQUE username failure is modelled.
- A key sequence that reaches the largest rowid is not modelled.
- Java `int` width is not modelled. Ids and quantities are unbounded integers, and nothing bounds the key counters. `getInt` truncating a rowid above 2^31-1 to 32 bits is not modelled. No arithmetic is done on quantities, only comparisons, so no wrap-around is lost.
- Only two nulls are modelled: a null `addItem` name and a null phone column. Passing null for a username, password or item name straight to `DatabaseHelper` is not modelled. The app's callers never do this. Where such a null is bound into a `rawQuery` (the two-argument `registerUser`, `authenticateUser`), Android's `SQLiteProgram.bindString` throws; the three-argument `registerUser`, `insertItem` and `updateItem` would store NULL.
- Exceptions from `SmsManager.sendTextMessage` are not modelled, in either `sendLowStockAlert` or `sendSMS`. An alert is recorded in the outbox as soon as it is handed to the service. `sendLowStockAlert` has no try/catch, so a throwing send would abort `updateItem` after the row was written. The model does not cover that.
- Concurrency is out of scope, including the non-atomic check-then-insert of the two-argument `registerUser`. Every operation is one sequential transition.
- SmsActivity.FormatPhoneNumber: text is modelled as a sequence of Unicode code points, while Java's `length()` and `charAt` count UTF-16 code units. A character outside the Basic Multilingual Plane counts once here and twice in Java, so for such input Java can place a dash inside a surrogate pair where the model places it after the whole character. The same holds for `Format` and `Dashed`.
- The `isFormatting` re-entrancy flag and the `Editable.replace` plumbing of the text watcher are not modelled. The watcher is a pure function of the field's text.
- The UI is not modelled: Toasts, Intents, the SMS permission flow, session storage, and the other activities and adapters. Outcomes that the UI only displays are datatype constructors.
- `SmsActivity.SendSms` and `RegisterActivity.SubmitRegistration` do not use a general regex engine. The regexes `\d{3}-\d{3}-\d{4}` and `\d{10}` are written as position predicates over ASCII digits, which is what Java's `\d` matches by default.
