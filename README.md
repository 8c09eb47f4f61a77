# Inventory store

A model in Dafny of the in-memory inventory tracker of `inventory_system.py`:
a mapping from item name to integer quantity with four operations,
`add_item`, `remove_item`, `get_qty` and `check_low_items`, and the `demo`
scenario that exercises them.

- `text.dfy` (module `Text`): the whitespace test and `str.strip()` that item
  names are validated with. `IsSpace` lists the characters for which Python's
  `str.isspace()` holds, and `Strip` trims them from both ends. The
  validation in `Inventory` tests `IsBlank(item)`, and `Strip`'s contract
  proves that this is the source's `not item.strip()`.
- `inventory.dfy` (module `Inventory`): the inventory as a value. A `Snapshot`
  holds the quantities (`counts`) and the keys in insertion order (`keys`).
  Python dictionaries iterate in that order, and `check_low_items` reports in
  it. Updating an existing key keeps its place, `del` removes it, and adding
  it again appends it at the end. `Add`, `Remove` and `Below` state the
  operations on snapshots. The lemmas prove the invariants they keep, a
  round trip, and a characterisation of the low-stock list.
- `store.dfy` (module `InventoryStore`): the store as an object. Class
  `Store` holds the mutable `stock` map and its key `order`. Its methods
  `AddItem` and `RemoveItem` update them in place and are proved against
  `Add` and `Remove`. `GetQty` and `CheckLowItems` are read-only functions.
  `LogList` is the caller-owned list that `add_item` appends to. `Demo`
  replays the `demo` scenario up to `check_low_items`; its `save_data`,
  `load_data` and `print_data` calls are left out with those operations.

A `ValueError` becomes a `Fail`/`Err` value that carries one `Error` per
validation message. A failing call changes neither the store nor the log.
The name is checked before the quantity, as in the source. Python integers
are unbounded, and so are Dafny's `int`.

Zero-quantity entries are possible. `remove_item` deletes an entry whose
quantity drops to 0 or below, but `add_item(item, 0)` on an absent item
creates an entry of quantity 0 (inventory_system.py:28). The model follows
the code. `AddZeroCreatesZeroEntry` shows such an entry, so "every quantity
is positive" is not an invariant. What does hold is that quantities stay
non-negative, and that `remove_item` never leaves the removed item at 0 or
below.

## Model

| member | source | states |
|---|---|---|
| Text.TrimLeft | inventory_system.py:23 | the result is the suffix of the name left after dropping leading whitespace: everything dropped is whitespace, and the result is empty or starts with a non-space |
| Text.TrimRight | inventory_system.py:23 | the result is the prefix left after dropping trailing whitespace: everything dropped is whitespace, and the result is empty or ends with a non-space |
| Text.Strip | inventory_system.py:23 | `item.strip()` is empty exactly when every character of `item` is whitespace, so the model's blank-name test `IsBlank` is the source's `not item.strip()` |
| Inventory.Without | inventory_system.py:46 | deleting a key leaves every other key, in the same relative order |
| Inventory.WithoutNoDuplicates | inventory_system.py:46 | deleting a key from a duplicate-free key order keeps it duplicate-free |
| Inventory.Add | inventory_system.py:18-29 | fails exactly when the name is blank (error BlankItemName) or else the quantity is negative (NegativeQuantity); on success the item's quantity is the old one (0 if absent) plus `qty`, no other quantity changes, and the key set gains `item`; an existing key keeps its place, a new one is appended |
| Inventory.Remove | inventory_system.py:33-49 | fails exactly when the name is blank (BlankItemName) or else the quantity is ≤ 0 (NonPositiveQuantity); an absent item leaves the snapshot unchanged; a present item keeps `q - qty` in place when that is positive, and is otherwise deleted (quantity reads 0, key removed from the map and the order); other quantities and every other key unchanged; the item is never left at a quantity ≤ 0 |
| Inventory.Below | inventory_system.py:102 | the list holds exactly the keys whose quantity is below the threshold, in key order |
| Inventory.BelowNoDuplicates | inventory_system.py:102 | each low key is reported once |
| Inventory.BelowDetermined | inventory_system.py:98-104 | any list of all and only the low keys, taken in key order, is the one the comprehension returns |
| Inventory.AddPreservesWellFormed | inventory_system.py:28 | after `add_item`, the key order still lists every key exactly once |
| Inventory.RemovePreservesWellFormed | inventory_system.py:41-46 | after `remove_item`, the key order still lists every key exactly once |
| Inventory.AddPreservesNonNegative | inventory_system.py:28 | if every quantity is ≥ 0 before `add_item`, every quantity is ≥ 0 after it |
| Inventory.RemovePreservesNonNegative | inventory_system.py:41-46 | if every quantity is ≥ 0 before `remove_item`, every quantity is ≥ 0 after it |
| Inventory.AddZeroCreatesZeroEntry | inventory_system.py:25-28 | adding 0 of an absent, validly named item succeeds and creates an entry of quantity 0 |
| Inventory.ReAddMovesToEnd | inventory_system.py:28-46 | an item deleted by `remove_item` and then added again moves to the end of the key order, with the added quantity |
| Inventory.RemoveUndoesAdd | inventory_system.py:28-46 | removing exactly what was added restores the snapshot, order included, unless the item was present at quantity ≤ 0 |
| InventoryStore.LogList.constructor | inventory_system.py:20-21 | a new log list is empty |
| InventoryStore.Store.constructor | inventory_system.py:15 | the store starts empty |
| InventoryStore.Store.AddItem | inventory_system.py:18-30 | succeeds exactly for a non-blank name and a quantity ≥ 0, and otherwise reports the name error before the quantity error; on success the new state is `Add` of the old one and exactly one log line (time, quantity, item) is appended to the caller's list; on failure the store and the log are unchanged |
| InventoryStore.Store.RemoveItem | inventory_system.py:33-49 | succeeds exactly for a non-blank name and a quantity > 0, and otherwise reports the name error before the quantity error; on success the new state is `Remove` of the old one; on failure, or for an absent item, the store is unchanged |
| InventoryStore.Store.GetQty | inventory_system.py:52-56 | the stored quantity of a present item, 0 for an absent one |
| InventoryStore.Store.CheckLowItems | inventory_system.py:98-104 | fails exactly on a negative threshold; otherwise returns all and only the keys with quantity below the threshold, each once, in insertion order; reads the store without changing it |
| InventoryStore.DemoAddApple | inventory_system.py:109 | on an empty store, adding 10 apples gives {apple: 10} |
| InventoryStore.DemoAddBanana | inventory_system.py:110 | adding 2 bananas appends banana to the order |
| InventoryStore.DemoAddOrange | inventory_system.py:111 | adding 8 oranges appends orange to the order |
| InventoryStore.DemoRemoveApple | inventory_system.py:112 | removing 3 apples leaves 7, in place |
| InventoryStore.DemoRemoveGrape | inventory_system.py:113 | removing absent grapes changes nothing |
| InventoryStore.DemoLowItems | inventory_system.py:116 | on {apple: 7, banana: 2, orange: 8} in that order, the default threshold 5 reports ["banana"] |
| InventoryStore.DemoUpdates | inventory_system.py:109-113 | the demo's updates leave {apple: 7, banana: 2, orange: 8} with keys in that order |
| InventoryStore.Demo | inventory_system.py:107-116 | in the demo, `get_qty("apple")` is 7, `get_qty("grape")` is 0 and `check_low_items()` is ["banana"] |

## Left out

- `load_data` and `save_data` (inventory_system.py:59-85): file I/O and JSON
  encoding are not modelled. Loading replaces the whole mapping. It empties
  the mapping when the file is missing, is not valid JSON, is not an object,
  or holds a value `int()` rejects with `ValueError`. Any other error (an
  `OSError` from `open`, a `TypeError` from `int(v)`) propagates and leaves
  the mapping unchanged. `int(v)` there can admit negative quantities.
- `print_data` (inventory_system.py:88-95): console output only.
- The `logging.*` records and the text of the `add_item` log line. A log
  line is a `LogEntry` value, and the `datetime.now()` timestamp is the
  parameter `now`.
- The `isinstance` checks (inventory_system.py:23, 25, 35, 37, 54, 100) hold
  by typing, so `get_qty`'s `TypeError` cannot arise. Python's `bool` would
  pass as an `int`; it has no counterpart here.
- The default arguments: callers of `AddItem` pass the quantity
  explicitly. The default threshold is the constant `DefaultThreshold`. An
  omitted `logs` argument is `null`, because the fresh list Python creates
  for it cannot be seen afterwards.
- Item names holding lone surrogates (U+D800 to U+DFFF): a Python `str`
  can hold them and `add_item` accepts them, but a Dafny `char` cannot, so
  such names have no counterpart in the model.
- `IsSpace` follows the whitespace set of current Python 3 releases. Later
  Unicode versions that change that set are not tracked.
- The module-level global `stock_data` becomes a `Store` object. Several
  stores can coexist, and nothing is shared between them.
