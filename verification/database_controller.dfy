/**
 The `DatabaseController` façade the activities call. Its one rule of its own
 is the guard of `addItem`; every other method hands its arguments to the
 store unchanged.
 */
module DatabaseController {
  import opened JavaLang
  import opened DatabaseHelper
  import DatabaseHelperProperties

  /** The guard of `addItem`: a non-null name that is not blank after `trim`, and a positive quantity. */
  predicate AcceptableNewItem(name: Nullable<string>, quantity: int) {
    name.NonNull? && !IsBlank(name.value) && quantity > 0
  }

  /**
   `addItem`: refuse a null or blank name or a quantity of zero or less
   without touching the store; otherwise insert the name as given (untrimmed).
   */
  function AddItem(s: Store, name: Nullable<string>, quantity: int, userId: int): (r: (Store, bool))
    requires Valid(s)
    ensures Valid(r.0)
    ensures r.1 <==> name.NonNull? && Trim(name.value) != "" && quantity > 0
    ensures !r.1 ==> r.0 == s
    ensures r.1 ==> r.0 == InsertItem(s, name.value, quantity, userId).0
    ensures r.1 ==> exists id :: id !in s.items && r.0.items == s.items[id := ItemRecord(name.value, quantity, userId)]
  {
    if name.Null? || Trim(name.value) == "" || quantity <= 0 then (s, false)
    else InsertItem(s, name.value, quantity, userId)
  }

  /** `getAllItems`: passed through. */
  function GetAllItems(s: Store, userId: int): (r: seq<Item>)
    requires Valid(s)
    ensures r == DatabaseHelper.GetAllItems(s, userId)
  {
    DatabaseHelper.GetAllItems(s, userId)
  }

  /** `updateSmsPreference`: passed through. */
  function UpdateSmsPreference(s: Store, userId: int, isEnabled: bool): (r: (Store, bool))
    ensures r == DatabaseHelper.UpdateSmsPreference(s, userId, isEnabled)
  {
    DatabaseHelper.UpdateSmsPreference(s, userId, isEnabled)
  }

  /** `updateItem`: passed through, with no check on the quantity. */
  function UpdateItem(s: Store, id: int, name: string, quantity: int, userId: int): (r: (Store, bool))
    ensures r == DatabaseHelper.UpdateItem(s, id, name, quantity, userId)
  {
    DatabaseHelper.UpdateItem(s, id, name, quantity, userId)
  }

  /** `deleteItem`: passed through. */
  function DeleteItem(s: Store, itemId: int, userId: int): (r: (Store, bool))
    ensures r == DatabaseHelper.DeleteItem(s, itemId, userId)
  {
    DatabaseHelper.DeleteItem(s, itemId, userId)
  }

  /** `getSmsPreference`: passed through. */
  function GetSmsPreference(s: Store, userId: int): (r: bool)
    ensures r == DatabaseHelper.GetSmsPreference(s, userId)
  {
    DatabaseHelper.GetSmsPreference(s, userId)
  }

  /** `setSmsPreference`: the same store call as `updateSmsPreference`. */
  function SetSmsPreference(s: Store, userId: int, isEnabled: bool): (r: (Store, bool))
    ensures r == DatabaseHelper.UpdateSmsPreference(s, userId, isEnabled)
  {
    DatabaseHelper.UpdateSmsPreference(s, userId, isEnabled)
  }

  /** `clearDatabase`: passed through. */
  function ClearDatabase(s: Store): (r: Store)
    ensures r == DatabaseHelper.ClearDatabase(s)
  {
    DatabaseHelper.ClearDatabase(s)
  }

  // ---------------------------------------------------------------------------
  // Properties of the façade
  // ---------------------------------------------------------------------------

  /** The guard of `addItem` is exactly `AcceptableNewItem`: the trimmed name is empty iff the name is blank. */
  lemma AddItemGuard(s: Store, name: Nullable<string>, quantity: int, userId: int)
    requires Valid(s)
    ensures AddItem(s, name, quantity, userId).1 <==> AcceptableNewItem(name, quantity)
    ensures !AcceptableNewItem(name, quantity) ==> AddItem(s, name, quantity, userId) == (s, false)
  {
  }

  /** A name with surrounding blanks is stored as given, not trimmed. */
  lemma AddItemKeepsUntrimmedName(s: Store, name: string, quantity: int, userId: int)
    requires Valid(s)
    requires quantity > 0 && !IsBlank(name)
    ensures var (s1, ok) := AddItem(s, NonNull(name), quantity, userId);
            ok && exists it :: it in GetAllItems(s1, userId) && it.name == name && it.quantity == quantity
  {
    var (s1, ok) := AddItem(s, NonNull(name), quantity, userId);
    var it := Item(s.nextItemId, name, quantity);
    assert it.id in s1.items && s1.items[it.id] == ItemRecord(it.name, it.quantity, userId);
    assert it in GetAllItems(s1, userId);
  }

  /**
   Two valid `addItem` calls for the same user add exactly two items to that
   user's listing; in a freshly cleared database the listing then has two items.
   */
  lemma TwoAddsYieldTwoItems(s: Store, name1: string, quantity1: int, name2: string, quantity2: int,
                             userId: int)
    requires Valid(s)
    requires AcceptableNewItem(NonNull(name1), quantity1) && AcceptableNewItem(NonNull(name2), quantity2)
    ensures var s0 := ClearDatabase(s);
            var (s1, ok1) := AddItem(s0, NonNull(name1), quantity1, userId);
            var (s2, ok2) := AddItem(s1, NonNull(name2), quantity2, userId);
            ok1 && ok2 && |GetAllItems(s2, userId)| == 2
  {
    var s0 := ClearDatabase(s);
    DatabaseHelperProperties.ResetsEmptyTheStore(s, 0, 0);
    var (s1, ok1) := AddItem(s0, NonNull(name1), quantity1, userId);
    DatabaseHelperProperties.InsertThenList(s0, name1, quantity1, userId);
    DatabaseHelperProperties.InsertThenList(s1, name2, quantity2, userId);
  }

  /** Unlike `addItem`, `updateItem` accepts a quantity of zero or below on an item the user owns. */
  lemma UpdateItemAcceptsNonPositiveQuantity(s: Store, itemId: int, name: string, quantity: int, userId: int)
    requires OwnedBy(s.items, itemId, userId)
    requires quantity <= 0
    ensures var (s1, ok) := UpdateItem(s, itemId, name, quantity, userId);
            ok && s1.items[itemId].quantity == quantity
  {
  }

  /** `setSmsPreference` and `updateSmsPreference` are the same transition. */
  lemma SetAndUpdateSmsPreferenceAgree(s: Store, userId: int, isEnabled: bool)
    ensures SetSmsPreference(s, userId, isEnabled) == UpdateSmsPreference(s, userId, isEnabled)
  {
  }
}
