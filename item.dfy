/**
 * One entry of a MessageSet (`MessageSet.Item`): a record holding an int32
 * type id in field 2 and one embedded message in field 3 of its own kernel.
 * The kernel is modelled by its two slots; a slot that was never written is
 * `None`.
 */
module MessageSetItem {
  import opened Wrappers

  newtype int32 = x: int | -0x8000_0000 <= x < 0x8000_0000
  newtype byte = x: int | 0 <= x < 0x100

  /** The serialized bytes of an embedded message: the raw kernel that
      `message_set.js` calls the message "accessor". Its contents are opaque here. */
  type Payload = seq<byte>

  /** The message a fresh empty kernel holds. */
  const EmptyPayload: Payload := []

  datatype Item = Item(typeIdSlot: Option<int32>, messageSlot: Option<Payload>)

  /** `Item.create`: a new item with field 2 set to `typeId` and field 3 to `value`. */
  function Create(typeId: int32, value: Payload): (r: Item)
    ensures TypeId(r) == typeId
    ensures GetMessageAccessorOrNull(r) == Some(value)
  {
    Item(Some(typeId), Some(value))
  }

  /** `Item.getTypeId`: field 2, or 0 when it was never written. */
  function TypeId(item: Item): int32
  {
    match item.typeIdSlot
    case Some(t) => t
    case None => 0
  }

  /** `Item.getMessageAccessorOrNull`: the raw message of field 3, or null. */
  function GetMessageAccessorOrNull(item: Item): Option<Payload>
  {
    item.messageSlot
  }

  /** `Item.getMessage`: field 3 decoded by the caller's `decode`; an unset
      field reads as the empty message. */
  function GetMessage<T>(item: Item, decode: Payload -> T): T
  {
    match item.messageSlot
    case Some(p) => decode(p)
    case None => decode(EmptyPayload)
  }

  /** `Item.setMessage`: overwrites field 3 and nothing else. */
  function SetMessage(item: Item, value: Payload): (r: Item)
    ensures TypeId(r) == TypeId(item) && r.typeIdSlot == item.typeIdSlot
    ensures GetMessageAccessorOrNull(r) == Some(value)
  {
    item.(messageSlot := Some(value))
  }

  /**
   * `Item.getMessageAttach`: get-or-create on field 3. An item whose field 3
   * is set is returned unchanged with its decoded message; otherwise field 3
   * is set to the empty message, and the decoded empty message is returned.
   * Either way the returned message is what `GetMessage` reads afterwards.
   */
  function GetMessageAttach<T>(item: Item, decode: Payload -> T): (r: (Item, T))
    ensures r.0.typeIdSlot == item.typeIdSlot && TypeId(r.0) == TypeId(item)
    ensures GetMessageAccessorOrNull(r.0).Some?
    ensures r.1 == GetMessage(r.0, decode)
    ensures r.1 == GetMessage(item, decode)
    ensures item.messageSlot.Some? ==> r.0 == item
    ensures item.messageSlot.None? ==> r.0.messageSlot == Some(EmptyPayload)
  {
    match item.messageSlot
    case Some(p) => (item, decode(p))
    case None => (item.(messageSlot := Some(EmptyPayload)), decode(EmptyPayload))
  }

  /** What `SetMessage` writes is what `GetMessage` decodes afterwards. */
  lemma GetAfterSet<T>(item: Item, value: Payload, decode: Payload -> T)
    ensures GetMessage(SetMessage(item, value), decode) == decode(value)
  {
  }

  /** `getTypeId` reads back the type id written into field 2. */
  lemma TypeIdReadsField2(typeId: int32, messageSlot: Option<Payload>)
    ensures TypeId(Item(Some(typeId), messageSlot)) == typeId
  {
  }

  /** `getMessageAccessorOrNull` is null exactly when field 3 is unset, and
      otherwise the raw message written there. */
  lemma AccessorReadsField3(typeIdSlot: Option<int32>, value: Payload)
    ensures GetMessageAccessorOrNull(Item(typeIdSlot, Some(value))) == Some(value)
    ensures GetMessageAccessorOrNull(Item(typeIdSlot, None)).None?
  {
  }

  /** `getMessage` decodes what `getMessageAccessorOrNull` returns, and the
      empty message when that is null. */
  lemma GetMessageDecodesAccessor<T>(item: Item, decode: Payload -> T)
    ensures GetMessageAccessorOrNull(item).Some? ==>
      GetMessage(item, decode) == decode(GetMessageAccessorOrNull(item).value)
    ensures GetMessageAccessorOrNull(item).None? ==>
      GetMessage(item, decode) == decode(EmptyPayload)
  {
  }

  /** An item whose field 2 was never written reports type id 0. */
  lemma TypeIdDefaultsToZero(messageSlot: Option<Payload>)
    ensures TypeId(Item(None, messageSlot)) == 0
  {
  }
}
