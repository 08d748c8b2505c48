/**
 Properties that relate several `DatabaseHelper` operations: what a reader of
 the store sees after a registration, a preference change, an insert, an
 update, a delete or a bulk clear.
 */
module DatabaseHelperProperties {
  import opened JavaLang
  import opened DatabaseHelper

  // ---------------------------------------------------------------------------
  // Users
  // ---------------------------------------------------------------------------

  /** Once a username is registered, both overloads refuse it again and change nothing. */
  lemma DuplicateRegistrationRejected(s: Store, username: string, password: string,
                                      phone: Nullable<string>, password2: string, phone2: Nullable<string>)
    requires Valid(s)
    ensures var (s1, ok) := RegisterUserWithPhone(s, username, password, phone);
            && RegisterUserWithPhone(s1, username, password2, phone2) == (s1, false)
            && RegisterUser(s1, username, password2) == (s1, false)
  {
    var (s1, ok) := RegisterUserWithPhone(s, username, password, phone);
    if ok {
      assert s1.users[s.nextUserId].username == username;
    } else {
      assert UsernameTaken(s.users, username);
    }
  }

  /** The explicit pre-check of the two-argument overload changes nothing: it behaves as the three-argument one with an empty phone. */
  lemma RegisterOverloadsAgree(s: Store, username: string, password: string)
    requires Valid(s)
    ensures RegisterUser(s, username, password) == RegisterUserWithPhone(s, username, password, NonNull(""))
  {
  }

  /**
   A freshly registered user logs in under a new id, has SMS alerts off and
   reads back the phone number it registered with.
   */
  lemma RegisteredUserDefaults(s: Store, username: string, password: string, phone: Nullable<string>)
    requires Valid(s)
    ensures var (s1, ok) := RegisterUserWithPhone(s, username, password, phone);
            ok ==> var id := AuthenticateUser(s1, username, password);
                   && id != NotFound
                   && id !in s.users
                   && !GetSmsPreference(s1, id)
                   && GetUserPhoneNumber(s1, id) == phone
  {
    var (s1, ok) := RegisterUserWithPhone(s, username, password, phone);
    if ok {
      var newId := s.nextUserId;
      assert Credentials(s1.users[newId], username, password);
      var id := AuthenticateUser(s1, username, password);
      assert s1.users[id].username == s1.users[newId].username;
      assert id == newId;
    }
  }

  /** Authentication finds every user whose username and password both match exactly. */
  lemma AuthenticateFindsUser(s: Store, id: int)
    requires Valid(s)
    requires id in s.users
    ensures AuthenticateUser(s, s.users[id].username, s.users[id].password) == id
  {
    var r := AuthenticateUser(s, s.users[id].username, s.users[id].password);
    assert Credentials(s.users[id], s.users[id].username, s.users[id].password);
    assert s.users[r].username == s.users[id].username;
  }

  /** After `updateSmsPreference(u, b)` succeeds, `getSmsPreference(u)` is b; no other user's flag moves. */
  lemma SmsPreferenceRoundTrip(s: Store, userId: int, enabled: bool)
    ensures var (s1, ok) := UpdateSmsPreference(s, userId, enabled);
            && (ok ==> GetSmsPreference(s1, userId) == enabled)
            && (!ok ==> !GetSmsPreference(s1, userId))
            && (forall other :: other != userId ==> GetSmsPreference(s1, other) == GetSmsPreference(s, other))
            && (forall other :: GetUserPhoneNumber(s1, other) == GetUserPhoneNumber(s, other))
  {
  }

  /** After `clearUsersTable`, nobody can log in, and every user's items are still listed. */
  lemma ClearUsersTableKeepsItems(s: Store)
    requires Valid(s)
    ensures var r := ClearUsersTable(s);
            && (forall u, p :: AuthenticateUser(r, u, p) == NotFound)
            && (forall userId :: GetAllItems(r, userId) == GetAllItems(s, userId))
  {
  }

  // ---------------------------------------------------------------------------
  // Listing
  // ---------------------------------------------------------------------------

  /** A listing holds no item at all exactly when it is empty. */
  lemma EmptyListing(r: seq<Item>)
    ensures (forall it :: it !in r) ==> r == []
  {
    if r != [] {
      assert r[0] in r;
    }
  }

  /** Tenant isolation: an item listed for one user is never listed for another. */
  lemma ListingIsolated(s: Store, a: int, b: int, it: Item)
    requires Valid(s)
    requires a != b
    requires it in GetAllItems(s, a)
    ensures it !in GetAllItems(s, b)
  {
  }

  /** Two tables that agree on the rows of `userId` in [lo, hi) scan alike for that user. */
  lemma {:induction false} ScanAgree(items: map<int, ItemRecord>, items': map<int, ItemRecord>,
                                     userId: int, lo: int, hi: int)
    requires forall id :: lo <= id < hi ==> (OwnedBy(items, id, userId) <==> OwnedBy(items', id, userId))
    requires forall id :: lo <= id < hi && OwnedBy(items, id, userId) && id in items' ==> items'[id] == items[id]
    ensures ScanItems(items', userId, lo, hi) == ScanItems(items, userId, lo, hi)
    decreases hi - lo
  {
    if lo < hi {
      ScanAgree(items, items', userId, lo + 1, hi);
    }
  }

  /** Adding a row under key hi extends the scan of [lo, hi) by that row, if its owner is the one scanned. */
  lemma {:induction false} ScanExtend(items: map<int, ItemRecord>, userId: int, lo: int, hi: int,
                                      record: ItemRecord)
    requires lo <= hi
    ensures ScanItems(items[hi := record], userId, lo, hi + 1)
            == ScanItems(items, userId, lo, hi)
               + (if record.ownerId == userId then [Item(hi, record.name, record.quantity)] else [])
    decreases hi - lo
  {
    var items' := items[hi := record];
    if lo == hi {
      assert ScanItems(items', userId, hi + 1, hi + 1) == [];
    } else {
      ScanExtend(items, userId, lo + 1, hi, record);
      if OwnedBy(items, lo, userId) {
        assert ItemAt(items', lo) == ItemAt(items, lo);
      }
    }
  }

  /**
   `insertItem` followed by `getAllItems`: the owner's listing gains exactly
   the new item under a new id; every other user's listing is unchanged.
   */
  lemma InsertThenList(s: Store, name: string, quantity: int, userId: int)
    requires Valid(s)
    ensures var (s1, _) := InsertItem(s, name, quantity, userId);
            exists id :: && id !in s.items
                         && Item(id, name, quantity) in GetAllItems(s1, userId)
                         && (forall it :: it in GetAllItems(s1, userId) <==>
                                          it in GetAllItems(s, userId) || it == Item(id, name, quantity))
                         && |GetAllItems(s1, userId)| == |GetAllItems(s, userId)| + 1
    ensures var (s1, _) := InsertItem(s, name, quantity, userId);
            forall other :: other != userId ==> GetAllItems(s1, other) == GetAllItems(s, other)
  {
    var (s1, _) := InsertItem(s, name, quantity, userId);
    var id := s.nextItemId;
    var record := ItemRecord(name, quantity, userId);
    ScanExtend(s.items, userId, 1, id, record);
    assert GetAllItems(s1, userId) == GetAllItems(s, userId) + [Item(id, name, quantity)];
    forall other | other != userId
      ensures GetAllItems(s1, other) == GetAllItems(s, other)
    {
      ScanExtend(s.items, other, 1, id, record);
    }
  }

  /**
   `updateItem` followed by `getAllItems`: on success the owner's listing
   shows the new name and quantity under the same id, and the old version of
   that item is gone, while the owner's other items stay listed as they were;
   other users' listings never change.
   */
  lemma UpdateThenList(s: Store, itemId: int, name: string, quantity: int, userId: int)
    requires Valid(s)
    ensures var (s1, ok) := UpdateItem(s, itemId, name, quantity, userId);
            && (ok ==> Item(itemId, name, quantity) in GetAllItems(s1, userId))
            && (ok ==> forall it :: it in GetAllItems(s1, userId) && it.id == itemId ==> it == Item(itemId, name, quantity))
            && (ok ==> forall it :: it in GetAllItems(s1, userId) <==>
                                    (it in GetAllItems(s, userId) && it.id != itemId) || it == Item(itemId, name, quantity))
            && (!ok ==> GetAllItems(s1, userId) == GetAllItems(s, userId))
            && (forall other :: other != userId ==> GetAllItems(s1, other) == GetAllItems(s, other))
  {
    var (s1, ok) := UpdateItem(s, itemId, name, quantity, userId);
    forall other | other != userId || !ok
      ensures GetAllItems(s1, other) == GetAllItems(s, other)
    {
      ScanAgree(s.items, s1.items, other, 1, s.nextItemId);
    }
  }

  /**
   `deleteItem` followed by `getAllItems`: the owner's listing loses exactly
   the deleted item; other users' listings never change.
   */
  lemma DeleteThenList(s: Store, itemId: int, userId: int)
    requires Valid(s)
    ensures var (s1, ok) := DeleteItem(s, itemId, userId);
            && (forall it :: it in GetAllItems(s1, userId) <==> it in GetAllItems(s, userId) && it.id != itemId)
            && (ok <==> exists it :: it in GetAllItems(s, userId) && it.id == itemId)
            && (forall other :: other != userId ==> GetAllItems(s1, other) == GetAllItems(s, other))
  {
    var (s1, ok) := DeleteItem(s, itemId, userId);
    if ok {
      assert ItemAt(s.items, itemId) in GetAllItems(s, userId);
    }
    forall other | other != userId
      ensures GetAllItems(s1, other) == GetAllItems(s, other)
    {
      ScanAgree(s.items, s1.items, other, 1, s.nextItemId);
    }
  }

  /** `clearItemsForUser(u)` empties u's listing and leaves every other listing as it was. */
  lemma ClearItemsForUserThenList(s: Store, userId: int)
    requires Valid(s)
    ensures var r := ClearItemsForUser(s, userId);
            && GetAllItems(r, userId) == []
            && (forall other :: other != userId ==> GetAllItems(r, other) == GetAllItems(s, other))
  {
    var r := ClearItemsForUser(s, userId);
    EmptyListing(GetAllItems(r, userId));
    forall other | other != userId
      ensures GetAllItems(r, other) == GetAllItems(s, other)
    {
      ScanAgree(s.items, r.items, other, 1, s.nextItemId);
    }
  }

  /** After `clearDatabase` or `onUpgrade` no user can log in and every listing is empty. */
  lemma ResetsEmptyTheStore(s: Store, oldVersion: int, newVersion: int)
    requires Valid(s)
    ensures forall r :: r == ClearDatabase(s) || r == OnUpgrade(s, oldVersion, newVersion) ==>
              && Valid(r)
              && (forall u, p :: AuthenticateUser(r, u, p) == NotFound)
              && (forall userId :: GetAllItems(r, userId) == [])
  {
    forall r, userId | r == ClearDatabase(s) || r == OnUpgrade(s, oldVersion, newVersion)
      ensures GetAllItems(r, userId) == []
    {
      EmptyListing(GetAllItems(r, userId));
    }
  }

  /**
   Item keys are never reused: after `clearDatabase` the next insert gets a key
   above every key the table ever held (only an upgrade, which drops the
   table, starts the sequence over).
   */
  lemma ItemIdsNeverReused(s: Store, name: string, quantity: int, userId: int)
    requires Valid(s)
    ensures var (s1, _) := InsertItem(ClearDatabase(s), name, quantity, userId);
            forall id, prior :: id in s1.items && prior in s.items ==> prior < id
  {
  }
}
