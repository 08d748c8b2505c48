/**
 A complete session against a fresh database, step by step: register, log
 in, add an item, turn alerts on, drop the item below the low-stock
 threshold, delete it.
 */
module InventoryScenarios {
  import opened JavaLang
  import opened DatabaseHelper
  import DatabaseController

  const Phone: string := "5551234567"
  const Alert: string := "Attention, you are running low on Widget with a quantity of 2. Buy more!"

  /** The database once "alice" has registered, with `items` as given. */
  function AliceStore(smsEnabled: bool, items: map<int, ItemRecord>, nextItemId: int, outbox: seq<Sms>): Store {
    Store(map[1 := UserRecord("alice", "pw", smsEnabled, NonNull(Phone))], items, 2, nextItemId, outbox)
  }

  lemma RegisterStep()
    ensures RegisterUserWithPhone(OnCreate([]), "alice", "pw", NonNull(Phone)) == (AliceStore(false, map[], 1, []), true)
    ensures AuthenticateUser(AliceStore(false, map[], 1, []), "alice", "pw") == 1
  {
    assert !UsernameTaken(OnCreate([]).users, "alice");
    var s := AliceStore(false, map[], 1, []);
    assert Credentials(s.users[1], "alice", "pw");
  }

  lemma AddStep()
    ensures DatabaseController.AddItem(AliceStore(false, map[], 1, []), NonNull("Widget"), 5, 1)
            == (AliceStore(false, map[1 := ItemRecord("Widget", 5, 1)], 2, []), true)
    ensures DatabaseController.UpdateSmsPreference(AliceStore(false, map[1 := ItemRecord("Widget", 5, 1)], 2, []), 1, true)
            == (AliceStore(true, map[1 := ItemRecord("Widget", 5, 1)], 2, []), true)
  {
    assert !IsBlank("Widget") by { assert !IsTrimmable("Widget"[0]); }
    var s := AliceStore(false, map[1 := ItemRecord("Widget", 5, 1)], 2, []);
    assert s.users[1 := s.users[1].(smsEnabled := true)]
           == map[1 := UserRecord("alice", "pw", true, NonNull(Phone))];
  }

  /** The alert text for two Widgets, spelled out. */
  lemma WidgetAlertText()
    ensures LowStockMessage("Widget", 2) == Alert
  {
    assert NatToString(2) == "2";
    var part1 := "Attention, you are running low on " + "Widget";
    assert part1 == "Attention, you are running low on Widget";
    var part2 := part1 + " with a quantity of ";
    assert part2 == "Attention, you are running low on Widget with a quantity of ";
    var part3 := part2 + "2";
    assert part3 == "Attention, you are running low on Widget with a quantity of 2";
    assert part3 + ". Buy more!" == Alert;
  }

  lemma UpdateStep()
    ensures DatabaseController.UpdateItem(AliceStore(true, map[1 := ItemRecord("Widget", 5, 1)], 2, []), 1, "Widget", 2, 1)
            == (AliceStore(true, map[1 := ItemRecord("Widget", 2, 1)], 2, [Sms(Phone, LowStockMessage("Widget", 2))]), true)
  {
    var s := AliceStore(true, map[1 := ItemRecord("Widget", 5, 1)], 2, []);
    assert AlertsEnabled(s.users, 1);
    assert s.items[1 := ItemRecord("Widget", 2, 1)] == map[1 := ItemRecord("Widget", 2, 1)];
    assert s.outbox + [Sms(Phone, LowStockMessage("Widget", 2))] == [Sms(Phone, LowStockMessage("Widget", 2))];
  }

  lemma DeleteStep()
    ensures DatabaseController.DeleteItem(AliceStore(true, map[1 := ItemRecord("Widget", 2, 1)], 2, [Sms(Phone, LowStockMessage("Widget", 2))]), 1, 1)
            == (AliceStore(true, map[], 2, [Sms(Phone, LowStockMessage("Widget", 2))]), true)
  {
    assert map[1 := ItemRecord("Widget", 2, 1)] - {1} == map[];
  }

  /** The one-item listing of a store whose only item is `record`, owned by user 1. */
  lemma SingleItemListing(smsEnabled: bool, record: ItemRecord, outbox: seq<Sms>)
    requires record.ownerId == 1
    ensures DatabaseController.GetAllItems(AliceStore(smsEnabled, map[1 := record], 2, outbox), 1)
            == [Item(1, record.name, record.quantity)]
  {
    var s := AliceStore(smsEnabled, map[1 := record], 2, outbox);
    assert ScanItems(s.items, 1, 2, 2) == [];
  }

  lemma LowStockSession()
    ensures
      var s0 := OnCreate([]);
      var (s1, registered) := RegisterUserWithPhone(s0, "alice", "pw", NonNull(Phone));
      var userId := AuthenticateUser(s1, "alice", "pw");
      var (s2, added) := DatabaseController.AddItem(s1, NonNull("Widget"), 5, userId);
      var (s3, enabled) := DatabaseController.UpdateSmsPreference(s2, userId, true);
      var (s4, updated) := DatabaseController.UpdateItem(s3, 1, "Widget", 2, userId);
      var (s5, deleted) := DatabaseController.DeleteItem(s4, 1, userId);
      && registered && userId == 1
      && added && DatabaseController.GetAllItems(s2, userId) == [Item(1, "Widget", 5)]
      && enabled
      && updated && DatabaseController.GetAllItems(s4, userId) == [Item(1, "Widget", 2)]
      && s4.outbox == [Sms(Phone, Alert)]
      && deleted && DatabaseController.GetAllItems(s5, userId) == []
  {
    var s0 := OnCreate([]);
    var s1 := AliceStore(false, map[], 1, []);
    var s2 := AliceStore(false, map[1 := ItemRecord("Widget", 5, 1)], 2, []);
    var s3 := AliceStore(true, map[1 := ItemRecord("Widget", 5, 1)], 2, []);
    var alert := LowStockMessage("Widget", 2);
    var s4 := AliceStore(true, map[1 := ItemRecord("Widget", 2, 1)], 2, [Sms(Phone, alert)]);
    var s5 := AliceStore(true, map[], 2, [Sms(Phone, alert)]);
    assert RegisterUserWithPhone(s0, "alice", "pw", NonNull(Phone)) == (s1, true) by { RegisterStep(); }
    assert AuthenticateUser(s1, "alice", "pw") == 1 by { RegisterStep(); }
    assert DatabaseController.AddItem(s1, NonNull("Widget"), 5, 1) == (s2, true) by { AddStep(); }
    assert DatabaseController.UpdateSmsPreference(s2, 1, true) == (s3, true) by { AddStep(); }
    assert DatabaseController.UpdateItem(s3, 1, "Widget", 2, 1) == (s4, true) by { UpdateStep(); }
    assert DatabaseController.DeleteItem(s4, 1, 1) == (s5, true) by { DeleteStep(); }
    assert DatabaseController.GetAllItems(s2, 1) == [Item(1, "Widget", 5)] by {
      SingleItemListing(false, ItemRecord("Widget", 5, 1), []);
    }
    assert DatabaseController.GetAllItems(s4, 1) == [Item(1, "Widget", 2)] by {
      SingleItemListing(true, ItemRecord("Widget", 2, 1), [Sms(Phone, alert)]);
    }
    assert alert == Alert by { WidgetAlertText(); }
    assert DatabaseController.GetAllItems(s5, 1) == [] by {
      assert ScanItems(s5.items, 1, 1, 2) == [];
    }
  }
}
