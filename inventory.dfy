/**
 * The inventory as a value: the item-to-quantity mapping together with the
 * order in which its keys were inserted (Python dictionaries iterate in
 * insertion order, and `check_low_items` reports in that order). The
 * operations of the store are stated here as functions from one snapshot to
 * the next; the class in module InventoryStore is proved against them.
 */
module Inventory {
  import opened Text

  /** The `ValueError`s the store raises, one per validation message. */
  datatype Error =
    | BlankItemName        // the item name is empty or only whitespace
    | NegativeQuantity     // add_item: the quantity is below zero
    | NonPositiveQuantity  // remove_item: the quantity is zero or below
    | NegativeThreshold    // check_low_items: the threshold is below zero

  /** Outcome of an operation that returns nothing but may raise. */
  datatype Outcome = Pass | Fail(error: Error)

  /** Outcome of an operation that returns a value but may raise. */
  datatype Result<T> = Ok(value: T) | Err(error: Error)

  /** Default `threshold` of `check_low_items`. */
  const DefaultThreshold: int := 5

  /** The stock mapping and its keys in insertion order. */
  datatype Snapshot = Snapshot(counts: map<string, int>, keys: seq<string>)

  predicate NoDuplicates(s: seq<string>) {
    forall i, j :: 0 <= i < j < |s| ==> s[i] != s[j]
  }

  /** `keys` lists every key of `counts` exactly once, and nothing else. */
  predicate WellFormed(inv: Snapshot) {
    && NoDuplicates(inv.keys)
    && (forall k :: k in inv.counts ==> k in inv.keys)
    && (forall k :: k in inv.keys ==> k in inv.counts)
  }

  predicate NonNegative(inv: Snapshot) {
    forall k :: k in inv.counts ==> inv.counts[k] >= 0
  }

  /** `stock_data.get(item, 0)`. */
  function Quantity(inv: Snapshot, item: string): int {
    if item in inv.counts then inv.counts[item] else 0
  }

  /** `a` is `b` with some elements left out, the rest in their order. */
  predicate IsSubsequence(a: seq<string>, b: seq<string>)
    decreases |b|
  {
    if a == [] then true
    else if b == [] then false
    else (a[0] == b[0] && IsSubsequence(a[1..], b[1..])) || IsSubsequence(a, b[1..])
  }

  // ----- validation -------------------------------------------------------

  // Item names: `not item.strip()` is tested as IsBlank(item), which
  // Text.Strip proves to be the same condition.

  /** The checks of `add_item`: the name first, then the quantity. */
  function ValidateAdd(item: string, qty: int): Outcome {
    if IsBlank(item) then Fail(BlankItemName)
    else if qty < 0 then Fail(NegativeQuantity)
    else Pass
  }

  /** The checks of `remove_item`: the name first, then the quantity. */
  function ValidateRemove(item: string, qty: int): Outcome {
    if IsBlank(item) then Fail(BlankItemName)
    else if qty <= 0 then Fail(NonPositiveQuantity)
    else Pass
  }

  // ----- the key order ----------------------------------------------------

  /** The key order after `del stock_data[item]`. */
  function Without(keys: seq<string>, item: string): (r: seq<string>)
    ensures forall k :: k in r <==> k in keys && k != item
    ensures IsSubsequence(r, keys)
  {
    if keys == [] then []
    else if keys[0] == item then Without(keys[1..], item)
    else [keys[0]] + Without(keys[1..], item)
  }

  /** The head of a list without duplicates does not recur in its tail. */
  lemma TailNoDuplicates(s: seq<string>)
    requires NoDuplicates(s) && s != []
    ensures NoDuplicates(s[1..]) && s[0] !in s[1..]
  {
    forall j | 0 <= j < |s| - 1 ensures s[1..][j] != s[0] {
      assert s[1..][j] == s[j + 1];
    }
  }

  lemma {:induction false} WithoutNoDuplicates(keys: seq<string>, item: string)
    requires NoDuplicates(keys)
    ensures NoDuplicates(Without(keys, item))
  {
    if keys != [] {
      TailNoDuplicates(keys);
      WithoutNoDuplicates(keys[1..], item);
    }
  }

  lemma {:induction false} WithoutAbsent(keys: seq<string>, item: string)
    requires item !in keys
    ensures Without(keys, item) == keys
  {
    if keys != [] {
      assert item !in keys[1..];
      WithoutAbsent(keys[1..], item);
    }
  }

  lemma {:induction false} WithoutAppended(keys: seq<string>, item: string)
    ensures Without(keys + [item], item) == Without(keys, item)
  {
    if keys == [] {
      assert [item][1..] == [];
    } else {
      assert (keys + [item])[1..] == keys[1..] + [item];
      WithoutAppended(keys[1..], item);
    }
  }

  // ----- the operations ---------------------------------------------------

  /** `add_item(item, qty)`: after validation, increment the quantity of
      `item`, creating the entry (at the end of the key order) if absent. */
  function Add(inv: Snapshot, item: string, qty: int): (r: Result<Snapshot>)
    ensures r.Err? <==> IsBlank(item) || qty < 0
    ensures r.Err? ==> r.error == if IsBlank(item) then BlankItemName else NegativeQuantity
    ensures r.Ok? ==> Quantity(r.value, item) == Quantity(inv, item) + qty
    ensures r.Ok? ==> forall k :: k != item ==> Quantity(r.value, k) == Quantity(inv, k)
    ensures r.Ok? ==> r.value.counts.Keys == inv.counts.Keys + {item}
    ensures r.Ok? && item in inv.counts ==> r.value.keys == inv.keys
    ensures r.Ok? && item !in inv.counts ==> r.value.keys == inv.keys + [item]
  {
    match ValidateAdd(item, qty)
    case Fail(e) => Err(e)
    case Pass =>
      var keys := if item in inv.counts then inv.keys else inv.keys + [item];
      Ok(Snapshot(inv.counts[item := Quantity(inv, item) + qty], keys))
  }

  /** `remove_item(item, qty)`: after validation, subtract from a present
      item, deleting its entry when nothing positive is left; an absent
      item is left alone. */
  function Remove(inv: Snapshot, item: string, qty: int): (r: Result<Snapshot>)
    ensures r.Err? <==> IsBlank(item) || qty <= 0
    ensures r.Err? ==> r.error == if IsBlank(item) then BlankItemName else NonPositiveQuantity
    ensures r.Ok? && item !in inv.counts ==> r.value == inv
    ensures r.Ok? && item in inv.counts && inv.counts[item] - qty > 0 ==>
      item in r.value.counts && r.value.counts[item] == inv.counts[item] - qty &&
      r.value.keys == inv.keys
    ensures r.Ok? && item in inv.counts && inv.counts[item] - qty <= 0 ==>
      item !in r.value.counts && Quantity(r.value, item) == 0 &&
      r.value.keys == Without(inv.keys, item)
    ensures r.Ok? ==> forall k :: k != item ==> Quantity(r.value, k) == Quantity(inv, k)
    ensures r.Ok? ==>
      r.value.counts.Keys == if item in r.value.counts then inv.counts.Keys else inv.counts.Keys - {item}
    ensures r.Ok? && item in r.value.counts ==> r.value.counts[item] > 0
  {
    match ValidateRemove(item, qty)
    case Fail(e) => Err(e)
    case Pass =>
      if item !in inv.counts then Ok(inv)
      else
        var left := inv.counts[item] - qty;
        if left > 0 then Ok(Snapshot(inv.counts[item := left], inv.keys))
        else Ok(Snapshot(inv.counts - {item}, Without(inv.keys, item)))
  }

  /** The comprehension of `check_low_items`: the keys, in order, whose
      quantity is below `threshold`. */
  function Below(counts: map<string, int>, keys: seq<string>, threshold: int): (r: seq<string>)
    ensures forall k :: k in r <==> k in keys && k in counts && counts[k] < threshold
    ensures IsSubsequence(r, keys)
  {
    if keys == [] then []
    else
      var rest := Below(counts, keys[1..], threshold);
      if keys[0] in counts && counts[keys[0]] < threshold then [keys[0]] + rest else rest
  }

  // ----- properties -------------------------------------------------------

  lemma {:induction false} BelowNoDuplicates(counts: map<string, int>, keys: seq<string>, threshold: int)
    requires NoDuplicates(keys)
    ensures NoDuplicates(Below(counts, keys, threshold))
  {
    if keys != [] {
      TailNoDuplicates(keys);
      BelowNoDuplicates(counts, keys[1..], threshold);
    }
  }

  lemma {:induction false} SubsequenceMembers(a: seq<string>, b: seq<string>)
    requires IsSubsequence(a, b)
    ensures forall x :: x in a ==> x in b
    decreases |b|
  {
    if a != [] {
      if a[0] == b[0] && IsSubsequence(a[1..], b[1..]) {
        SubsequenceMembers(a[1..], b[1..]);
        assert forall x :: x in a ==> x == a[0] || x in a[1..];
      } else {
        SubsequenceMembers(a, b[1..]);
      }
    }
  }

  /** The keys `check_low_items` reports are determined by "they are all
      and only the low keys, in key order": any list with those properties
      is the one `Below` computes. */
  lemma {:induction false} BelowDetermined(counts: map<string, int>, keys: seq<string>, threshold: int, r: seq<string>)
    requires NoDuplicates(keys)
    requires IsSubsequence(r, keys)
    requires forall k :: k in r <==> k in keys && k in counts && counts[k] < threshold
    ensures r == Below(counts, keys, threshold)
    decreases |keys|
  {
    if keys == [] {
    } else {
      var h, rest := keys[0], keys[1..];
      assert forall k :: k in keys <==> k == h || k in rest;
      TailNoDuplicates(keys);
      if r != [] && r[0] == h && IsSubsequence(r[1..], rest) {
        SubsequenceMembers(r[1..], rest);
        assert forall k :: k in r <==> k == r[0] || k in r[1..];
        BelowDetermined(counts, rest, threshold, r[1..]);
      } else {
        assert IsSubsequence(r, rest);
        SubsequenceMembers(r, rest);
        BelowDetermined(counts, rest, threshold, r);
      }
    }
  }

  lemma AddPreservesWellFormed(inv: Snapshot, item: string, qty: int)
    requires WellFormed(inv)
    ensures Add(inv, item, qty).Ok? ==> WellFormed(Add(inv, item, qty).value)
  {
  }

  lemma RemovePreservesWellFormed(inv: Snapshot, item: string, qty: int)
    requires WellFormed(inv)
    ensures Remove(inv, item, qty).Ok? ==> WellFormed(Remove(inv, item, qty).value)
  {
    WithoutNoDuplicates(inv.keys, item);
  }

  lemma AddPreservesNonNegative(inv: Snapshot, item: string, qty: int)
    requires NonNegative(inv)
    ensures Add(inv, item, qty).Ok? ==> NonNegative(Add(inv, item, qty).value)
  {
  }

  lemma RemovePreservesNonNegative(inv: Snapshot, item: string, qty: int)
    requires NonNegative(inv)
    ensures Remove(inv, item, qty).Ok? ==> NonNegative(Remove(inv, item, qty).value)
  {
  }

  /** Removing what was just added restores the inventory, key order
      included, unless the item was present with a quantity that is not
      positive (then the removal deletes it). */
  lemma RemoveUndoesAdd(inv: Snapshot, item: string, qty: int)
    requires WellFormed(inv)
    requires Add(inv, item, qty).Ok? && qty > 0
    requires item in inv.counts ==> inv.counts[item] > 0
    ensures Remove(Add(inv, item, qty).value, item, qty) == Ok(inv)
  {
    var added := Add(inv, item, qty).value;
    if item !in inv.counts {
      assert item !in inv.keys;
      WithoutAppended(inv.keys, item);
      WithoutAbsent(inv.keys, item);
      assert added.counts - {item} == inv.counts;
    } else {
      assert added.counts[item := inv.counts[item]] == inv.counts;
    }
  }

  /** Adding zero of an absent item creates an entry of quantity zero, so
      "every quantity is positive" is not an invariant of the store. */
  lemma AddZeroCreatesZeroEntry(inv: Snapshot, item: string)
    requires !IsBlank(item) && item !in inv.counts
    ensures Add(inv, item, 0).Ok?
    ensures item in Add(inv, item, 0).value.counts && Add(inv, item, 0).value.counts[item] == 0
  {
  }

  /** A key deleted by `remove_item` and then added again moves to the end
      of the key order. */
  lemma ReAddMovesToEnd(inv: Snapshot, item: string, qty: int, qty': int)
    requires item in inv.counts && Remove(inv, item, qty).Ok? && inv.counts[item] <= qty
    requires Add(Remove(inv, item, qty).value, item, qty').Ok?
    ensures Add(Remove(inv, item, qty).value, item, qty').value.keys == Without(inv.keys, item) + [item]
    ensures Quantity(Add(Remove(inv, item, qty).value, item, qty').value, item) == qty'
  {
  }
}
