/**
 * The MessageSet container: an ordered list of type-tagged items kept as
 * repeated group field 1 of the container's kernel. The kernel's field 1 is
 * modelled by the `items` field, which the mutating operations reassign.
 */
module MessageSets {
  import opened Wrappers
  import opened MessageSetItem
  import opened ItemLists

  class MessageSet {
    /** Repeated group field 1 of the kernel: insertion order is encoding
        order and iteration order. Type ids need not be unique. */
    var items: seq<Item>

    /** `MessageSet.createEmpty`. */
    constructor CreateEmpty()
      ensures items == []
    {
      items := [];
    }

    /** `MessageSet.fromKernel`: wraps the item list of an existing kernel. */
    constructor FromKernel(kernelItems: seq<Item>)
      ensures items == kernelItems
    {
      items := kernelItems;
    }

    /** `getItems`: the items in encoding order, as they are at call time. */
    method GetItems() returns (r: seq<Item>)
      ensures r == items
    {
      r := items;
    }

    /** `getItemElement`: the item at `index`; an index outside
        `[0, getItemCount())` is the kernel's out-of-range error. */
    method GetItemElement(index: int) returns (r: Option<Item>)
      ensures r.Some? <==> 0 <= index < |items|
      ensures r.Some? ==> r.value == items[index]
    {
      if 0 <= index < |items| {
        r := Some(items[index]);
      } else {
        r := None;
      }
    }

    /** `getItemCount`. */
    method GetItemCount() returns (n: nat)
      ensures n == |items|
    {
      n := |items|;
    }

    /** `addItem`: appends one item after all existing ones. */
    method AddItem(item: Item)
      modifies this
      ensures items == old(items) + [item]
      ensures |items| == |old(items)| + 1 && items[..|old(items)|] == old(items)
    {
      items := items + [item];
    }

    /** `addItems`: appends the given items in their order. */
    method AddItems(newItems: seq<Item>)
      modifies this
      ensures items == old(items) + newItems
    {
      items := items + newItems;
    }

    /** `setItems`: replaces the whole item list. */
    method SetItems(newItems: seq<Item>)
      modifies this
      ensures items == newItems
    {
      items := newItems;
    }

    /** `hasMessage`: whether some item carries the type id; the scan stops
        at the first match. */
    method HasMessage(typeId: int32) returns (found: bool)
      ensures found <==> exists j :: 0 <= j < |items| && TypeId(items[j]) == typeId
    {
      var all := GetItems();
      for i := 0 to |all|
        invariant forall j :: 0 <= j < i ==> TypeId(all[j]) != typeId
      {
        if TypeId(all[i]) == typeId {
          return true;
        }
      }
      return false;
    }

    /**
     * `getMessageOrNull`: scans every item and keeps the decoded message of
     * each match, so the last item with the type id wins; null when none
     * matches. The item list is not changed.
     */
    method GetMessageOrNull<T>(typeId: int32, decode: Payload -> T) returns (message: Option<T>)
      ensures message == MessageOf(items, typeId, decode)
      ensures message.None? <==> forall j :: 0 <= j < |items| ==> TypeId(items[j]) != typeId
      ensures message.Some? ==>
        exists i :: IsLastMatch(items, typeId, i) && message.value == GetMessage(items[i], decode)
    {
      var all := GetItems();
      message := None;
      for i := 0 to |all|
        invariant message == MessageOf(all[..i], typeId, decode)
      {
        assert all[..i + 1][..i] == all[..i];
        if TypeId(all[i]) == typeId {
          message := Some(GetMessage(all[i], decode));
        }
      }
      assert all[..|all|] == all;
      if message.Some? {
        assert IsLastMatch(items, typeId, LastIndexOf(items, typeId).value);
      }
    }

    /** `getMessageAccessorOrNull`: the last of `getMessageAccessors`, or null. */
    method GetMessageAccessorOrNull(typeId: int32) returns (accessor: Option<Payload>)
      ensures accessor == AccessorOrNull(items, typeId)
      ensures accessor.None? <==>
        forall j :: 0 <= j < |items| && TypeId(items[j]) == typeId ==> items[j].messageSlot.None?
      ensures accessor.Some? ==>
        exists j :: 0 <= j < |items| && TypeId(items[j]) == typeId && items[j].messageSlot == accessor
    {
      var all := GetMessageAccessors(typeId);
      accessor := if |all| > 0 then Some(all[|all| - 1]) else None;
      AccessorsEmpty(items, typeId);
      AccessorsMembership(items, typeId);
      if accessor.Some? {
        assert accessor.value in all;
      }
    }

    /**
     * `getMessageAttach`: get-or-create. When an item carries the type id,
     * returns the message `getMessageOrNull` finds and leaves the list alone;
     * otherwise appends one item holding a fresh empty message and returns
     * that message. The ghost `slot` is the last item with the type id, the
     * one whose message was returned. An appended item is created from the
     * returned message, so the two share storage, and a write into that slot
     * is what the next lookup sees (`WriteThroughAttachedSlot`). An existing
     * match is read through `Item.getMessage`, whose sharing is the kernel's
     * business. When its field 3 is unset the message is a decoded empty
     * message that no item stores, and the list is unchanged
     * (`AttachLeavesUnsetFieldDetached`).
     */
    method GetMessageAttach<T>(typeId: int32, decode: Payload -> T) returns (message: T, ghost slot: nat)
      modifies this
      ensures items == Attached(old(items), typeId)
      ensures MessageOf(old(items), typeId, decode).Some? ==>
        items == old(items) && message == MessageOf(old(items), typeId, decode).value
      ensures MessageOf(old(items), typeId, decode).None? ==>
        items == old(items) + [Create(typeId, EmptyPayload)] && message == decode(EmptyPayload)
      ensures IsLastMatch(items, typeId, slot) && message == GetMessage(items[slot], decode)
      ensures items[slot].messageSlot.Some? || (items == old(items) && message == decode(EmptyPayload))
      ensures MessageOf(items, typeId, decode) == Some(message)
    {
      var found := GetMessageOrNull(typeId, decode);
      if found.Some? {
        message := found.value;
        slot := LastIndexOf(items, typeId).value;
        return;
      }
      message := decode(EmptyPayload);
      var item := Create(typeId, EmptyPayload);
      AddItem(item);
      slot := |items| - 1;
      LastIndexOfAppend(old(items), item, typeId);
    }

    /** `getMessageAccessors`: the raw message of every item with the type
        id whose field 3 is set, in encounter order. */
    method GetMessageAccessors(typeId: int32) returns (accessors: seq<Payload>)
      ensures accessors == Accessors(items, typeId)
      ensures |accessors| <= |items|
    {
      var all := GetItems();
      accessors := [];
      for i := 0 to |all|
        invariant accessors == Accessors(all[..i], typeId)
      {
        assert all[..i + 1][..i] == all[..i];
        if TypeId(all[i]) == typeId {
          var accessor := MessageSetItem.GetMessageAccessorOrNull(all[i]);
          if accessor.Some? {
            accessors := accessors + [accessor.value];
          }
        }
      }
      assert all[..|all|] == all;
    }

    /**
     * `setItem`: drops every item with the type id, keeping the others in
     * order, then appends `(typeId, message)` when a message is given;
     * a null message deletes the type id.
     */
    method SetItem(typeId: int32, message: Option<Payload>)
      modifies this
      ensures items == SetItemResult(old(items), typeId, message)
      ensures message.Some? ==> items[|items| - 1] == Create(typeId, message.value)
    {
      var all := GetItems();
      var kept: seq<Item> := [];
      for i := 0 to |all|
        invariant kept == Filtered(all[..i], typeId)
      {
        assert all[..i + 1][..i] == all[..i];
        if TypeId(all[i]) != typeId {
          kept := kept + [all[i]];
        }
      }
      assert all[..|all|] == all;
      if message.Some? {
        kept := kept + [Create(typeId, message.value)];
      }
      SetItems(kept);
    }
  }
}
