# MessageSet in Dafny

A model of the MessageSet container of the Protocol Buffers JavaScript
runtime (`js/experimental/runtime/kernel/message_set.js`). A MessageSet is an
ordered list of type-tagged items. Each item (`MessageSet.Item`) pairs an
int32 type id (field 2) with one embedded message (field 3). The list is kept
as repeated group field 1 of the container's kernel.

The model has five parts.

- `wrappers.dfy` (module `Wrappers`): the `Option` type that stands for a
  value or `null`.
- `item.dfy` (module `MessageSetItem`): the item as a datatype with two
  optional slots. A slot that was never written is `None`, so `TypeId`
  reads 0 for an unset field 2. Message bytes are an opaque `Payload`
  (`seq<byte>`): the raw kernel that the source calls the message
  "accessor". The caller's `instanceCreator` is a total function
  `decode: Payload -> T`.
- `item_list.dfy` (module `ItemLists`): the sequence algebra the container
  relies on. It defines the last-occurrence-wins lookup (`LastIndexOf`,
  `MessageOf`), the accessor list (`Accessors`, `AccessorOrNull`), the
  filter behind `setItem` (`Filtered`, `SetItemResult`) and get-or-create
  (`Attached`), with lemmas about each.
- `message_set.dfy` (module `MessageSets`): the container as a class whose
  `items` field stands for the kernel's field 1. The mutating operations
  reassign it. `hasMessage`, `getMessageOrNull`, `getMessageAccessors` and
  `setItem` are loops over `getItems()`, as in `message_set.js`. `hasMessage`
  is proved against an existential over the items. The other three are
  proved against their functions in `ItemLists`. `getItemElement` and
  `getItemCount` read the sequence directly.
- `wire.dfy` (module `WireFormat`): the group layer of the Protocol Buffers
  binary encoding. Each item is written as `0x0B`, then `0x10` and the
  varint type id, then `0x1A`, the varint length and the message bytes,
  then `0x0C`. The groups are concatenated in insertion order. The module
  proves that parsing restores the item list, and it proves the byte
  layouts the tests expect.

The aliasing of `getMessageAttach` is kept visible in the model. The method
returns a ghost `slot`: the last item with the type id, the one whose message
was returned. When no item had the type id, attach appends an item created
from the returned message itself, so the two share storage.
`ItemLists.WriteThroughAttachedSlot` states that a write into that slot is
what the next `getMessageOrNull` returns. When an item already had the type
id, attach returns what `getMessageOrNull` reads through `Item.getMessage`.
Whether that message shares the item's storage depends on the kernel, which
this model does not include. When the matching item's field 3 is unset, the
returned message is a decoded empty message that no item stores, and the list
is unchanged. `ItemLists.AttachLeavesUnsetFieldDetached` states this case.

`getMessageAccessorOrNull` and `getMessageOrNull` do not always agree.
`getMessageAccessors` skips matching items whose field 3 is unset, while
`getMessageOrNull` decodes such an item to the empty message. So when the
last item with a type id has no message, `getMessageOrNull` returns the empty
message and `getMessageAccessorOrNull` returns the message of an earlier
item. `ItemLists.AccessorOrNullAtLastMatch` states both cases.

## Model

| member | source | states |
|---|---|---|
| MessageSetItem.Create | js/experimental/runtime/kernel/message_set.js:188-193 | the new item reports the given type id and holds the given message in field 3 |
| MessageSetItem.TypeIdReadsField2 | js/experimental/runtime/kernel/message_set.js:248-250 | `TypeId` (`getTypeId`) returns the type id written into field 2 |
| MessageSetItem.AccessorReadsField3 | js/experimental/runtime/kernel/message_set.js:236-238 | `GetMessageAccessorOrNull` (`getMessageAccessorOrNull`) is null exactly when field 3 is unset, and otherwise the raw message written there |
| MessageSetItem.GetMessageDecodesAccessor | js/experimental/runtime/kernel/message_set.js:218-220 | `GetMessage` (`getMessage`) decodes what the accessor returns, and the empty message when the accessor is null |
| MessageSetItem.TypeIdDefaultsToZero | js/experimental/runtime/kernel/message_set.js:248-250 | an item whose field 2 was never written reports type id 0 |
| MessageSetItem.SetMessage | js/experimental/runtime/kernel/message_set.js:243-245 | field 3 now holds the value; field 2 and the type id are unchanged |
| MessageSetItem.GetAfterSet | js/experimental/runtime/kernel/message_set.js:218-220 | `getMessage` after `setMessage(v)` decodes `v` |
| MessageSetItem.GetMessageAttach | js/experimental/runtime/kernel/message_set.js:228-230 | get-or-create on field 3: an item with a message is returned unchanged; otherwise field 3 becomes the empty message; the type id is kept, field 3 is set afterwards, and the result is what `getMessage` returns before and after |
| MessageSets.MessageSet.CreateEmpty | js/experimental/runtime/kernel/message_set.js:22-25 | a new container has no items |
| MessageSets.MessageSet.FromKernel | js/experimental/runtime/kernel/message_set.js:15-17 | wrapping a kernel takes its field-1 item list as it is |
| MessageSets.MessageSet.GetItems | js/experimental/runtime/kernel/message_set.js:37-39 | yields the current items in insertion order |
| MessageSets.MessageSet.GetItemElement | js/experimental/runtime/kernel/message_set.js:45-48 | returns item `i` exactly when `0 <= i < getItemCount()`, and the out-of-range error otherwise |
| MessageSets.MessageSet.GetItemCount | js/experimental/runtime/kernel/message_set.js:53-55 | the number of items |
| MessageSets.MessageSet.AddItem | js/experimental/runtime/kernel/message_set.js:58-60 | appends exactly one item at the end; earlier items are unchanged and the count grows by one |
| MessageSets.MessageSet.AddItems | js/experimental/runtime/kernel/message_set.js:63-65 | appends the given items after the existing ones, in their order |
| MessageSets.MessageSet.SetItems | js/experimental/runtime/kernel/message_set.js:68-70 | the item list becomes exactly the given list |
| MessageSets.MessageSet.HasMessage | js/experimental/runtime/kernel/message_set.js:78-85 | true iff some item has the type id; the loop returns at the first match |
| MessageSets.MessageSet.GetMessageOrNull | js/experimental/runtime/kernel/message_set.js:94-103 | null iff no item has the type id; otherwise the decoded message of the last item with it; the item list is not changed |
| MessageSets.MessageSet.GetMessageAccessorOrNull | js/experimental/runtime/kernel/message_set.js:109-112 | the last element of `getMessageAccessors`; null iff no item with the type id has field 3 set; otherwise the message of such an item |
| MessageSets.MessageSet.GetMessageAttach | js/experimental/runtime/kernel/message_set.js:121-131 | with a match, the list is unchanged and the last match's message is returned; without one, exactly one item (type id, empty message) is appended and its message returned; afterwards `getMessageOrNull` yields the returned message; `slot` is the last matching item, and either its field 3 is set or the list is unchanged and the message is the decoded empty message that no item stores |
| MessageSets.MessageSet.GetMessageAccessors | js/experimental/runtime/kernel/message_set.js:137-149 | the raw messages of all matching items that have one, in encounter order |
| MessageSets.MessageSet.SetItem | js/experimental/runtime/kernel/message_set.js:155-167 | the new list is the old items of other type ids in order, followed by `(typeId, message)` when a message is given |
| ItemLists.LastIndexOf | js/experimental/runtime/kernel/message_set.js:94-103 | the result is the last position holding the type id, and none exists exactly when no item holds it |
| ItemLists.LastIndexOfIsUnique | js/experimental/runtime/kernel/message_set.js:94-103 | any position that is the last match is the one `LastIndexOf` returns |
| ItemLists.LastIndexOfAppend | js/experimental/runtime/kernel/message_set.js:58-60 | after appending an item, its position is the last match for its own type id; other type ids keep their last match |
| ItemLists.MessageOfAppend | js/experimental/runtime/kernel/message_set.js:94-103 | after appending an item, the lookup of its type id decodes that item; every other lookup is unchanged |
| ItemLists.LastOccurrenceWins | js/experimental/runtime/kernel/message_set.js:96-101 | after adding `(t, p)`, `getMessageOrNull(t)` yields `p` whatever came before; lookups of other type ids are unchanged |
| ItemLists.MessageOfPresence | js/experimental/runtime/kernel/message_set.js:78-103 | `getMessageOrNull` finds a message exactly when `hasMessage` is true |
| ItemLists.AccessorsMembership | js/experimental/runtime/kernel/message_set.js:137-149 | a message is among the accessors iff some item with the type id holds it in field 3 |
| ItemLists.AccessorsEmpty | js/experimental/runtime/kernel/message_set.js:137-149 | the accessor list is empty iff no item with the type id has field 3 set |
| ItemLists.AccessorsAppend | js/experimental/runtime/kernel/message_set.js:137-149 | the accessors of a concatenation are the accessors of each part, in order |
| ItemLists.AccessorsDropUnmatchedTail | js/experimental/runtime/kernel/message_set.js:137-149 | items after the last match contribute no accessor |
| ItemLists.AccessorOrNullAtLastMatch | js/experimental/runtime/kernel/message_set.js:109-112 | `getMessageAccessorOrNull` is the last match's message when it has one, and otherwise the result for the items before it |
| ItemLists.AccessorImpliesMessage | js/experimental/runtime/kernel/message_set.js:94-112 | whenever an accessor is found, `getMessageOrNull` finds a message too |
| ItemLists.Filtered | js/experimental/runtime/kernel/message_set.js:156-162 | the kept items are exactly the items of other type ids, and the list is no longer than the input |
| ItemLists.FilteredAppend | js/experimental/runtime/kernel/message_set.js:156-162 | filtering distributes over concatenation, so the kept items keep their relative order |
| ItemLists.FilteredNoMatch | js/experimental/runtime/kernel/message_set.js:156-162 | filtering a list without the type id returns it unchanged |
| ItemLists.FilteredHasNoMatch | js/experimental/runtime/kernel/message_set.js:156-162 | no kept item carries the filtered type id |
| ItemLists.FilteredKeepsOtherMessages | js/experimental/runtime/kernel/message_set.js:156-162 | filtering out one type id leaves `getMessageOrNull` of every other type id unchanged |
| ItemLists.FilteredKeepsOtherAccessors | js/experimental/runtime/kernel/message_set.js:156-162 | filtering out one type id leaves `getMessageAccessors` of every other type id unchanged |
| ItemLists.SetItemKeepsOthersInOrder | js/experimental/runtime/kernel/message_set.js:155-167 | `setItem` keeps the items of other type ids, in their original relative order |
| ItemLists.SetItemReplacesOrDeletes | js/experimental/runtime/kernel/message_set.js:155-167 | afterwards the type id is present iff a message was given, then only in the last item, and `getMessageOrNull` yields that message; with null it yields null |
| ItemLists.SetItemKeepsOtherTypes | js/experimental/runtime/kernel/message_set.js:155-167 | `setItem(t, ...)` changes neither `getMessageOrNull` nor `getMessageAccessors` of any other type id |
| ItemLists.AttachedResolves | js/experimental/runtime/kernel/message_set.js:121-131 | attach keeps the existing items as a prefix and adds at most one item, and only when no match existed; afterwards a match exists and the lookup yields the old message or the decoded empty message |
| ItemLists.AttachedIdempotent | js/experimental/runtime/kernel/message_set.js:121-131 | attaching the same type id twice leaves the same list as attaching once |
| ItemLists.AttachLeavesUnsetFieldDetached | js/experimental/runtime/kernel/message_set.js:121-131 | when the last item with the type id has no field 3, attach leaves the list unchanged, the lookup yields the decoded empty message, and that item still contributes no accessor, so the returned message is stored nowhere |
| ItemLists.WriteThroughAttachedSlot | js/experimental/runtime/kernel/message_set.js:121-131 | writing a message into field 3 of the last matching item (the `slot` of attach) makes `getMessageOrNull` return it, with no other call on the container |
| WireFormat.TagsMatchFieldLayout | js/experimental/runtime/kernel/message_set_test.js:73-82 | the four tag bytes are field number times 8 plus wire type: group start/end on field 1, varint on field 2, length-delimited on field 3 |
| WireFormat.EncodeVarint | js/experimental/runtime/kernel/message_set_test.js:75-76 | a varint has at least one byte |
| WireFormat.VarintContinuationBits | js/experimental/runtime/kernel/message_set_test.js:75-76 | every varint byte but the last has its high bit set |
| WireFormat.DecodeVarint | js/experimental/runtime/kernel/message_set_test.js:75-76 | a successful read leaves a strictly shorter remainder, so at least one byte is consumed |
| WireFormat.VarintRoundTrip | js/experimental/runtime/kernel/message_set_test.js:75-76 | reading an encoded varint gives back the value and exactly the bytes after it |
| WireFormat.Int32ToVarintValue | js/experimental/runtime/kernel/message_set.js:190 | an int32 is written as its 64-bit two's complement, below 2^64, and unchanged when non-negative |
| WireFormat.Int32RoundTrip | js/experimental/runtime/kernel/message_set.js:248-250 | reading the low 32 bits back gives the original type id |
| WireFormat.VarintLength | js/experimental/runtime/kernel/message_set_test.js:75-76 | a value in `[128^(k-1), 128^k)` takes exactly `k` bytes |
| WireFormat.NegativeTypeIdTakesTenBytes | js/experimental/runtime/kernel/message_set.js:190 | a negative type id takes ten varint bytes |
| WireFormat.TypeIdFieldRoundTrip | js/experimental/runtime/kernel/message_set.js:190 | field 2 reads back as the slot that was written, set or unset |
| WireFormat.MessageFieldRoundTrip | js/experimental/runtime/kernel/message_set.js:191 | field 3 reads back as the slot that was written, set or unset |
| WireFormat.ItemRoundTrip | js/experimental/runtime/kernel/message_set_test.js:106-113 | one group reads back as the same item, followed by exactly the bytes after it |
| WireFormat.DecodeItemsCons | js/experimental/runtime/kernel/message_set_test.js:205-210 | parsing a group in front of more bytes yields that item, then the items of the rest |
| WireFormat.RoundTrip | js/experimental/runtime/kernel/message_set_test.js:199-222 | parsing the encoded item list restores every type id and message in insertion order |
| WireFormat.EncodeItemsAppend | js/experimental/runtime/kernel/message_set.js:58-65 | the encoding of appended items follows the encoding of the existing ones |
| WireFormat.EncodeSingle | js/experimental/runtime/kernel/message_set_test.js:69-83 | a one-item list encodes as that item's group |
| WireFormat.ItemLayout12345 | js/experimental/runtime/kernel/message_set_test.js:73-82 | an item with type id 12345 and a short message is `0B 10 B9 60 1A len message 0C` |
| WireFormat.OneItemLayout | js/experimental/runtime/kernel/message_set_test.js:69-83 | one item `{12345: {20: 30}}` in field 10 encodes as `52 0A` followed by its 10-byte group |
| WireFormat.TwoItemLayout | js/experimental/runtime/kernel/message_set_test.js:151-175 | two items of type id 12345 in field 10 encode as `52 14` followed by the two groups in insertion order |

## Left out

- The kernel engine is not part of this model. That covers buffer parsing and serialization, lazy field decoding and the `pivot` hint (the `pivot` only tunes the kernel's internal representation). The kernel's field 1 is the `items` sequence and an item's fields 2 and 3 are its two slots.
- `Item.getMessage` on an unset field 3 decodes the empty message. This is how the kernel's `getMessage` is taken to behave; the kernel's code is not part of this model.
- `instanceCreator` is a total function from message bytes to a value. A decoder that does not match the stored message type is not checked, and neither is one that returns a falsy value (`getMessageAttach` tests the result for truthiness).
- `internalGetKernel` (both classes) and `Item.fromKernel` are left out. In a value model, wrapping a kernel as an item is the identity.
- MessageSets.MessageSet.GetMessageAttach: storage sharing is promised only for the item attach has just appended. When an item already has the type id, `message_set.js:122` reads the message through `Item.getMessage` (lines 99 and 219), not `Item.getMessageAttach`. Whether the kernel's `getMessage` then returns an instance bound to field 3 is the kernel's behaviour, which this model does not include. When field 3 of the last matching item is unset, the returned message is stored nowhere (`ItemLists.AttachLeavesUnsetFieldDetached`); an example is the list `[Item(Some(5), None)]` with type id 5.
- JavaScript object identity is left out. The sharing between the message returned by `getMessageAttach` and the stored item is modelled by the ghost `slot` and `ItemLists.WriteThroughAttachedSlot`, not by references.
- A decode failure of a malformed item is left out. Items are already values here, so the container's queries cannot fail.
- Type ids are `int32` throughout. A JavaScript number outside that range, or not an integer, never equals a stored type id. The kernel's range check on `setInt32` is not modelled.
- `getItems`, `addItems` and `setItems` take and return sequences, not JavaScript iterables.
- The decoder reads only the layout the encoder writes: field 2 before field 3, each at most once, with no unknown fields. It does not limit a varint to ten bytes. General message parsing belongs to the kernel.
- Decoding the enclosing message (the field-10 tag and length in the tests) is left out. `WireFormat.EncodeAsField` only encodes it.
