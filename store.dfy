/**
 * The inventory store itself: the process-wide `stock_data` dictionary,
 * held here by an object whose methods update it in place, together with
 * the caller-owned list that `add_item` appends its log lines to.
 */
module InventoryStore {
  import opened Text
  import opened Inventory

  /** One line appended by `add_item`: when it ran, the quantity and the
      item (how the line is formatted as text is not modelled). */
  datatype LogEntry = Added(time: string, qty: int, item: string)

  /** A caller-owned list of log lines. */
  class LogList {
    var lines: seq<LogEntry>

    constructor ()
      ensures lines == []
    {
      lines := [];
    }
  }

  class Store {
    /** The quantities, keyed by item name. */
    var stock: map<string, int>
    /** The keys of `stock` in insertion order (the dictionary's own order). */
    var order: seq<string>

    ghost predicate Valid()
      reads this
    {
      WellFormed(View())
    }

    /** The store's state as a value. */
    function View(): Snapshot
      reads this
    {
      Snapshot(stock, order)
    }

    /** A new, empty store. */
    constructor ()
      ensures Valid() && stock == map[] && order == []
    {
      stock := map[];
      order := [];
    }

    /** `add_item(item, qty, logs)`. A `null` `logs` stands for the omitted
        argument, whose fresh list nobody can see afterwards; `now` stands for
        `datetime.now()`. */
    method AddItem(item: string, qty: int, logs: LogList?, now: string) returns (r: Outcome)
      requires Valid()
      modifies this, logs
      ensures Valid()
      ensures r.Pass? <==> !IsBlank(item) && qty >= 0
      ensures r.Fail? ==> r.error == if IsBlank(item) then BlankItemName else NegativeQuantity
      ensures r.Pass? ==> View() == Add(old(View()), item, qty).value
      ensures r.Fail? ==> stock == old(stock) && order == old(order)
      ensures logs != null ==>
        logs.lines == old(logs.lines) + if r.Pass? then [Added(now, qty, item)] else []
    {
      r := ValidateAdd(item, qty);
      if r.Fail? {
        return;
      }
      AddPreservesWellFormed(View(), item, qty);
      var current := GetQty(item);
      if item !in stock {
        order := order + [item];
      }
      stock := stock[item := current + qty];
      if logs != null {
        logs.lines := logs.lines + [Added(now, qty, item)];
      }
    }

    /** `remove_item(item, qty)`: an absent item is not an error. */
    method RemoveItem(item: string, qty: int) returns (r: Outcome)
      requires Valid()
      modifies this
      ensures Valid()
      ensures r.Pass? <==> !IsBlank(item) && qty > 0
      ensures r.Fail? ==> r.error == if IsBlank(item) then BlankItemName else NonPositiveQuantity
      ensures r.Pass? ==> View() == Remove(old(View()), item, qty).value
      ensures r.Fail? || item !in old(stock) ==> stock == old(stock) && order == old(order)
    {
      r := ValidateRemove(item, qty);
      if r.Fail? {
        return;
      }
      RemovePreservesWellFormed(View(), item, qty);
      if item in stock {
        var left := stock[item] - qty;
        if left > 0 {
          stock := stock[item := left];
        } else {
          stock := stock - {item};
          order := Without(order, item);
        }
      }
    }

    /** `get_qty(item)`: the stored quantity, 0 for an item not in stock. */
    function GetQty(item: string): (r: int)
      reads this
      ensures item in stock ==> r == stock[item]
      ensures item !in stock ==> r == 0
    {
      Quantity(View(), item)
    }

    /** `check_low_items(threshold)`: the items whose quantity is below
        `threshold`, each once, in insertion order. */
    function CheckLowItems(threshold: int): (r: Result<seq<string>>)
      reads this
      requires Valid()
      ensures r.Err? <==> threshold < 0
      ensures r.Err? ==> r.error == NegativeThreshold
      ensures r.Ok? ==> forall k :: k in r.value <==> k in stock && stock[k] < threshold
      ensures r.Ok? ==> NoDuplicates(r.value) && IsSubsequence(r.value, order)
    {
      if threshold < 0 then Err(NegativeThreshold)
      else
        BelowNoDuplicates(stock, order, threshold);
        Ok(Below(stock, order, threshold))
    }
  }

  // The snapshots the `demo` scenario passes through, one step at a time.

  lemma DemoAddApple()
    ensures Add(Snapshot(map[], []), "apple", 10) == Ok(Snapshot(map["apple" := 10], ["apple"]))
  {
    assert !IsSpace("apple"[0]);
    var r := Add(Snapshot(map[], []), "apple", 10);
    assert r.Ok? && r.value.counts == map["apple" := 10] && r.value.keys == ["apple"];
  }

  lemma DemoAddBanana(u: Snapshot)
    requires u == Snapshot(map["apple" := 10], ["apple"])
    ensures Add(u, "banana", 2) == Ok(Snapshot(map["apple" := 10, "banana" := 2], ["apple", "banana"]))
  {
    assert !IsSpace("banana"[0]);
    var r := Add(u, "banana", 2);
    assert r.Ok? && r.value.counts == map["apple" := 10, "banana" := 2];
    assert r.value.keys == ["apple", "banana"];
  }

  lemma DemoAddOrange(u: Snapshot)
    requires u == Snapshot(map["apple" := 10, "banana" := 2], ["apple", "banana"])
    ensures Add(u, "orange", 8) ==
      Ok(Snapshot(map["apple" := 10, "banana" := 2, "orange" := 8], ["apple", "banana", "orange"]))
  {
    assert !IsSpace("orange"[0]);
    var r := Add(u, "orange", 8);
    assert r.Ok? && r.value.counts == map["apple" := 10, "banana" := 2, "orange" := 8];
    assert r.value.keys == ["apple", "banana", "orange"];
  }

  lemma DemoRemoveApple(u: Snapshot)
    requires u == Snapshot(map["apple" := 10, "banana" := 2, "orange" := 8], ["apple", "banana", "orange"])
    ensures Remove(u, "apple", 3) ==
      Ok(Snapshot(map["apple" := 7, "banana" := 2, "orange" := 8], ["apple", "banana", "orange"]))
  {
    assert !IsSpace("apple"[0]);
    var r := Remove(u, "apple", 3);
    assert r.Ok? && r.value.counts == map["apple" := 7, "banana" := 2, "orange" := 8];
    assert r.value.keys == ["apple", "banana", "orange"];
  }

  lemma DemoRemoveGrape(u: Snapshot)
    requires u == Snapshot(map["apple" := 7, "banana" := 2, "orange" := 8], ["apple", "banana", "orange"])
    ensures Remove(u, "grape", 2) == Ok(u)
  {
    assert !IsSpace("grape"[0]);
  }

  lemma DemoLowItems(v: Snapshot)
    requires v.counts == map["apple" := 7, "banana" := 2, "orange" := 8]
    requires v.keys == ["apple", "banana", "orange"]
    ensures Below(v.counts, v.keys, DefaultThreshold) == ["banana"]
  {
    assert IsSubsequence([], v.keys[2..]);
    assert IsSubsequence(["banana"], v.keys[1..]);
    BelowDetermined(v.counts, v.keys, DefaultThreshold, ["banana"]);
  }

  /** The updates of the `demo` scenario on a fresh store: three adds, a
      partial removal of apples and the no-op removal of absent grapes. */
  method DemoUpdates(now: string) returns (s: Store)
    ensures s.Valid()
    ensures s.stock == map["apple" := 7, "banana" := 2, "orange" := 8]
    ensures s.order == ["apple", "banana", "orange"]
  {
    assert !IsBlank("apple") && !IsBlank("banana") && !IsBlank("orange") && !IsBlank("grape") by {
      assert !IsSpace("apple"[0]) && !IsSpace("banana"[0]);
      assert !IsSpace("orange"[0]) && !IsSpace("grape"[0]);
    }
    s := new Store();
    DemoAddApple();
    var r := s.AddItem("apple", 10, null, now);
    DemoAddBanana(s.View());
    r := s.AddItem("banana", 2, null, now);
    DemoAddOrange(s.View());
    r := s.AddItem("orange", 8, null, now);
    DemoRemoveApple(s.View());
    r := s.RemoveItem("apple", 3);
    DemoRemoveGrape(s.View());
    r := s.RemoveItem("grape", 2);
  }

  /** The `demo` scenario up to the report: after the updates, seven apples
      are left, there are no grapes, and bananas are the only item below the
      default threshold. */
  method Demo(now: string) returns (apple: int, grape: int, low: Result<seq<string>>)
    ensures apple == 7 && grape == 0
    ensures low == Ok(["banana"])
  {
    var s := DemoUpdates(now);
    apple := s.GetQty("apple");
    grape := s.GetQty("grape");
    low := s.CheckLowItems(DefaultThreshold);
    DemoLowItems(s.View());
  }
}
