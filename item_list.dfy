/**
 * The sequence algebra behind a MessageSet: how its ordered item list is
 * searched, filtered and extended. Each function here is the specification
 * that one looping operation of the container is proved against.
 */
module ItemLists {
  import opened Wrappers
  import opened MessageSetItem

  /** Item `i` is the last item of `items` whose type id is `typeId`. */
  ghost predicate IsLastMatch(items: seq<Item>, typeId: int32, i: int)
  {
    && 0 <= i < |items|
    && TypeId(items[i]) == typeId
    && forall j :: i < j < |items| ==> TypeId(items[j]) != typeId
  }

  /** The position of the last item with the given type id, if any. */
  function LastIndexOf(items: seq<Item>, typeId: int32): (r: Option<nat>)
    ensures r.Some? ==> IsLastMatch(items, typeId, r.value)
    ensures r.None? <==> forall j :: 0 <= j < |items| ==> TypeId(items[j]) != typeId
  {
    if |items| == 0 then None
    else if TypeId(items[|items| - 1]) == typeId then Some(|items| - 1)
    else LastIndexOf(items[..|items| - 1], typeId)
  }

  /**
   * The resolution rule of `getMessageOrNull`: the decoded message of the
   * last item with the type id ("later writes win"), or null.
   */
  function MessageOf<T>(items: seq<Item>, typeId: int32, decode: Payload -> T): Option<T>
  {
    match LastIndexOf(items, typeId)
    case None => None
    case Some(i) => Some(GetMessage(items[i], decode))
  }

  /**
   * What `getMessageAccessors` collects: the raw message of every item with
   * the type id whose field 3 is set, in encounter order.
   */
  function Accessors(items: seq<Item>, typeId: int32): (r: seq<Payload>)
    ensures |r| <= |items|
  {
    if |items| == 0 then []
    else
      var last := items[|items| - 1];
      var init := Accessors(items[..|items| - 1], typeId);
      if TypeId(last) == typeId && last.messageSlot.Some? then init + [last.messageSlot.value]
      else init
  }

  /** `getMessageAccessorOrNull`: the last element of `Accessors`, or null. */
  function AccessorOrNull(items: seq<Item>, typeId: int32): Option<Payload>
  {
    var a := Accessors(items, typeId);
    if |a| > 0 then Some(a[|a| - 1]) else None
  }

  /** The items `setItem` keeps: those whose type id differs, in their order. */
  function Filtered(items: seq<Item>, typeId: int32): (r: seq<Item>)
    ensures |r| <= |items|
    ensures forall x :: x in r <==> x in items && TypeId(x) != typeId
  {
    if |items| == 0 then []
    else
      var last := items[|items| - 1];
      var init := Filtered(items[..|items| - 1], typeId);
      assert items == items[..|items| - 1] + [last];
      if TypeId(last) != typeId then init + [last] else init
  }

  /** The item list after `setItem(typeId, message)`. */
  function SetItemResult(items: seq<Item>, typeId: int32, message: Option<Payload>): seq<Item>
  {
    Filtered(items, typeId) + (if message.Some? then [Create(typeId, message.value)] else [])
  }

  /** The item list after `getMessageAttach(typeId, ...)`. */
  function Attached(items: seq<Item>, typeId: int32): seq<Item>
  {
    if LastIndexOf(items, typeId).Some? then items else items + [Create(typeId, EmptyPayload)]
  }

  // ---------------------------------------------------------------------
  // Last-occurrence-wins lookup

  /** `LastIndexOf` is the only position satisfying `IsLastMatch`. */
  lemma LastIndexOfIsUnique(items: seq<Item>, typeId: int32, i: int)
    requires IsLastMatch(items, typeId, i)
    ensures LastIndexOf(items, typeId) == Some(i)
  {
    assert TypeId(items[i]) == typeId;
  }

  /** Appending one item: it becomes the last match for its own type id and
      changes nothing for any other. */
  lemma LastIndexOfAppend(items: seq<Item>, item: Item, typeId: int32)
    ensures LastIndexOf(items + [item], typeId) ==
      if TypeId(item) == typeId then Some(|items|) else LastIndexOf(items, typeId)
  {
    assert (items + [item])[..|items|] == items;
  }

  /** Last-occurrence-wins: after appending `(typeId, p)` the lookup of
      `typeId` yields `p`, whatever items of that type came before, and the
      lookup of every other type id is unchanged. */
  lemma LastOccurrenceWins<T>(items: seq<Item>, typeId: int32, p: Payload, other: int32, decode: Payload -> T)
    requires other != typeId
    ensures MessageOf(items + [Create(typeId, p)], typeId, decode) == Some(decode(p))
    ensures MessageOf(items + [Create(typeId, p)], other, decode) == MessageOf(items, other, decode)
  {
    MessageOfAppend(items, Create(typeId, p), typeId, decode);
    MessageOfAppend(items, Create(typeId, p), other, decode);
  }

  /** `getMessageOrNull` finds a message exactly when some item carries the type id. */
  lemma MessageOfPresence<T>(items: seq<Item>, typeId: int32, decode: Payload -> T)
    ensures MessageOf(items, typeId, decode).Some? <==>
      exists j :: 0 <= j < |items| && TypeId(items[j]) == typeId
  {
    if MessageOf(items, typeId, decode).Some? {
      var i := LastIndexOf(items, typeId).value;
      assert TypeId(items[i]) == typeId;
    }
  }

  // ---------------------------------------------------------------------
  // Accessors

  /** A message is among the accessors exactly when some item with the type
      id holds it in field 3. */
  lemma {:induction false} AccessorsMembership(items: seq<Item>, typeId: int32)
    ensures forall p :: p in Accessors(items, typeId) <==>
      exists j :: 0 <= j < |items| && TypeId(items[j]) == typeId && items[j].messageSlot == Some(p)
    decreases |items|
  {
    if |items| > 0 {
      var init := items[..|items| - 1];
      AccessorsMembership(init, typeId);
      assert forall j :: 0 <= j < |init| ==> init[j] == items[j];
    }
  }

  /** No accessor is found exactly when no item with the type id has field 3 set. */
  lemma AccessorsEmpty(items: seq<Item>, typeId: int32)
    ensures |Accessors(items, typeId)| == 0 <==>
      forall j :: 0 <= j < |items| && TypeId(items[j]) == typeId ==> items[j].messageSlot.None?
  {
    AccessorsMembership(items, typeId);
    var a := Accessors(items, typeId);
    if |a| > 0 {
      assert a[0] in a;
    } else {
      assert forall j :: 0 <= j < |items| && items[j].messageSlot.Some? ==>
        items[j].messageSlot == Some(items[j].messageSlot.value);
    }
  }

  /** Collecting accessors distributes over concatenation. */
  lemma {:induction false} AccessorsAppend(a: seq<Item>, b: seq<Item>, typeId: int32)
    ensures Accessors(a + b, typeId) == Accessors(a, typeId) + Accessors(b, typeId)
    decreases |b|
  {
    if |b| == 0 {
      assert a + b == a;
    } else {
      var init := b[..|b| - 1];
      assert (a + b)[..|a + b| - 1] == a + init;
      AccessorsAppend(a, init, typeId);
    }
  }

  /** Items without the type id after position `n` contribute no accessor. */
  lemma {:induction false} AccessorsDropUnmatchedTail(items: seq<Item>, typeId: int32, n: nat)
    requires n <= |items|
    requires forall j :: n <= j < |items| ==> TypeId(items[j]) != typeId
    ensures Accessors(items, typeId) == Accessors(items[..n], typeId)
    decreases |items|
  {
    if n == |items| {
      assert items[..n] == items;
    } else {
      var init := items[..|items| - 1];
      assert init[..n] == items[..n];
      AccessorsDropUnmatchedTail(init, typeId, n);
    }
  }

  /**
   * `getMessageAccessorOrNull` resolves like `getMessageOrNull` when the
   * last item with the type id has a message, and otherwise falls back to
   * the items before it: an item without field 3 is skipped.
   */
  lemma AccessorOrNullAtLastMatch(items: seq<Item>, typeId: int32)
    requires LastIndexOf(items, typeId).Some?
    ensures var i := LastIndexOf(items, typeId).value;
      AccessorOrNull(items, typeId) ==
        if items[i].messageSlot.Some? then items[i].messageSlot
        else AccessorOrNull(items[..i], typeId)
  {
    var i := LastIndexOf(items, typeId).value;
    AccessorsDropUnmatchedTail(items, typeId, i + 1);
    var head := items[..i + 1];
    assert head[..i] == items[..i];
  }

  /** Whenever an accessor is found, `getMessageOrNull` finds a message too. */
  lemma AccessorImpliesMessage<T>(items: seq<Item>, typeId: int32, decode: Payload -> T)
    ensures AccessorOrNull(items, typeId).Some? ==> MessageOf(items, typeId, decode).Some?
  {
    if AccessorOrNull(items, typeId).Some? {
      AccessorsEmpty(items, typeId);
      MessageOfPresence(items, typeId, decode);
    }
  }

  // ---------------------------------------------------------------------
  // Filtering and setItem

  /** Filtering distributes over concatenation: the kept items stay in
      their original relative order. */
  lemma {:induction false} FilteredAppend(a: seq<Item>, b: seq<Item>, typeId: int32)
    ensures Filtered(a + b, typeId) == Filtered(a, typeId) + Filtered(b, typeId)
    decreases |b|
  {
    if |b| == 0 {
      assert a + b == a;
    } else {
      var init := b[..|b| - 1];
      assert (a + b)[..|a + b| - 1] == a + init;
      FilteredAppend(a, init, typeId);
    }
  }

  /** Filtering removes nothing from a list without the type id. */
  lemma {:induction false} FilteredNoMatch(items: seq<Item>, typeId: int32)
    requires forall j :: 0 <= j < |items| ==> TypeId(items[j]) != typeId
    ensures Filtered(items, typeId) == items
    decreases |items|
  {
    if |items| > 0 {
      FilteredNoMatch(items[..|items| - 1], typeId);
    }
  }

  /** Appending one item moves the lookup of its own type id to it and
      leaves every other lookup alone. */
  lemma MessageOfAppend<T>(items: seq<Item>, item: Item, typeId: int32, decode: Payload -> T)
    ensures MessageOf(items + [item], typeId, decode) ==
      if TypeId(item) == typeId then Some(GetMessage(item, decode)) else MessageOf(items, typeId, decode)
  {
    LastIndexOfAppend(items, item, typeId);
    var r := LastIndexOf(items, typeId);
    if r.Some? {
      assert (items + [item])[r.value] == items[r.value];
    }
  }

  /** Filtering by one type id leaves the lookup of every other type id alone. */
  lemma {:induction false} FilteredKeepsOtherMessages<T>(items: seq<Item>, typeId: int32, other: int32, decode: Payload -> T)
    requires other != typeId
    ensures MessageOf(Filtered(items, typeId), other, decode) == MessageOf(items, other, decode)
    decreases |items|
  {
    if |items| > 0 {
      var init, last := items[..|items| - 1], items[|items| - 1];
      assert items == init + [last];
      FilteredKeepsOtherMessages(init, typeId, other, decode);
      MessageOfAppend(init, last, other, decode);
      if TypeId(last) != typeId {
        MessageOfAppend(Filtered(init, typeId), last, other, decode);
      }
    }
  }

  /** Filtering by one type id leaves the accessors of every other type id alone. */
  lemma {:induction false} FilteredKeepsOtherAccessors(items: seq<Item>, typeId: int32, other: int32)
    requires other != typeId
    ensures Accessors(Filtered(items, typeId), other) == Accessors(items, other)
    decreases |items|
  {
    if |items| > 0 {
      var init, last := items[..|items| - 1], items[|items| - 1];
      FilteredKeepsOtherAccessors(init, typeId, other);
      if TypeId(last) != typeId {
        var f := Filtered(init, typeId);
        assert (f + [last])[..|f|] == f;
      }
    }
  }

  /** No kept item carries the filtered type id. */
  lemma FilteredHasNoMatch(items: seq<Item>, typeId: int32)
    ensures forall j :: 0 <= j < |Filtered(items, typeId)| ==> TypeId(Filtered(items, typeId)[j]) != typeId
  {
    var f := Filtered(items, typeId);
    forall j | 0 <= j < |f| ensures TypeId(f[j]) != typeId {
      assert f[j] in f;
    }
  }

  /** `setItem(typeId, message)` keeps every item of another type id, in
      their original relative order. */
  lemma SetItemKeepsOthersInOrder(items: seq<Item>, typeId: int32, message: Option<Payload>)
    ensures Filtered(SetItemResult(items, typeId, message), typeId) == Filtered(items, typeId)
  {
    var f := Filtered(items, typeId);
    var tail := if message.Some? then [Create(typeId, message.value)] else [];
    FilteredHasNoMatch(items, typeId);
    FilteredAppend(f, tail, typeId);
    FilteredNoMatch(f, typeId);
    assert Filtered(tail, typeId) == [] by {
      if message.Some? { assert tail[..0] == []; }
    }
  }

  /**
   * After `setItem(typeId, message)` the type id is present exactly when a
   * message was given, and then in exactly one item, the last one, which the
   * lookup resolves to that message; a null message deletes the type id.
   */
  lemma SetItemReplacesOrDeletes<T>(items: seq<Item>, typeId: int32, message: Option<Payload>, decode: Payload -> T)
    ensures var r := SetItemResult(items, typeId, message);
      forall j :: 0 <= j < |r| && TypeId(r[j]) == typeId ==> message.Some? && j == |r| - 1
    ensures var r := SetItemResult(items, typeId, message);
      (exists j :: 0 <= j < |r| && TypeId(r[j]) == typeId) <==> message.Some?
    ensures MessageOf(SetItemResult(items, typeId, message), typeId, decode) ==
      if message.Some? then Some(decode(message.value)) else None
  {
    var f := Filtered(items, typeId);
    var r := SetItemResult(items, typeId, message);
    FilteredHasNoMatch(items, typeId);
    assert forall j :: 0 <= j < |f| ==> r[j] == f[j];
    MessageOfPresence(r, typeId, decode);
    if message.Some? {
      MessageOfAppend(f, Create(typeId, message.value), typeId, decode);
      assert TypeId(r[|r| - 1]) == typeId;
    } else {
      assert r == f;
    }
  }

  /** `setItem(typeId, ...)` changes no lookup of any other type id. */
  lemma SetItemKeepsOtherTypes<T>(items: seq<Item>, typeId: int32, message: Option<Payload>, other: int32, decode: Payload -> T)
    requires other != typeId
    ensures MessageOf(SetItemResult(items, typeId, message), other, decode) == MessageOf(items, other, decode)
    ensures Accessors(SetItemResult(items, typeId, message), other) == Accessors(items, other)
  {
    var f := Filtered(items, typeId);
    FilteredKeepsOtherMessages(items, typeId, other, decode);
    FilteredKeepsOtherAccessors(items, typeId, other);
    if message.Some? {
      LastOccurrenceWins(f, typeId, message.value, other, decode);
      AccessorsAppend(f, [Create(typeId, message.value)], other);
      assert [Create(typeId, message.value)][..0] == [];
    } else {
      assert SetItemResult(items, typeId, message) == f;
    }
  }

  // ---------------------------------------------------------------------
  // Attach

  /**
   * `getMessageAttach` leaves a list that already holds the type id alone,
   * and otherwise appends exactly one item carrying the empty message; either
   * way the lookup afterwards resolves to the message it returns.
   */
  lemma AttachedResolves<T>(items: seq<Item>, typeId: int32, decode: Payload -> T)
    ensures var a := Attached(items, typeId);
      && |items| <= |a| <= |items| + 1
      && a[..|items|] == items
      && (|a| == |items| <==> MessageOf(items, typeId, decode).Some?)
      && LastIndexOf(a, typeId).Some?
      && MessageOf(a, typeId, decode) ==
           if MessageOf(items, typeId, decode).Some? then MessageOf(items, typeId, decode)
           else Some(decode(EmptyPayload))
  {
    if LastIndexOf(items, typeId).None? {
      LastIndexOfAppend(items, Create(typeId, EmptyPayload), typeId);
      assert (items + [Create(typeId, EmptyPayload)])[..|items|] == items;
    }
  }

  /** Attaching twice is attaching once. */
  lemma AttachedIdempotent(items: seq<Item>, typeId: int32)
    ensures Attached(Attached(items, typeId), typeId) == Attached(items, typeId)
  {
    if LastIndexOf(items, typeId).None? {
      LastIndexOfAppend(items, Create(typeId, EmptyPayload), typeId);
    }
  }

  /**
   * A write into field 3 of the last item with the type id is what the next
   * `getMessageOrNull` sees, with no further call on the container. This is
   * the aliasing `getMessageAttach` relies on for the item it has just
   * appended from the returned message.
   */
  lemma WriteThroughAttachedSlot<T>(items: seq<Item>, typeId: int32, p: Payload, decode: Payload -> T)
    requires LastIndexOf(items, typeId).Some?
    ensures var i := LastIndexOf(items, typeId).value;
      MessageOf(items[i := SetMessage(items[i], p)], typeId, decode) == Some(decode(p))
  {
    var i := LastIndexOf(items, typeId).value;
    var written := items[i := SetMessage(items[i], p)];
    assert forall j :: 0 <= j < |items| ==> TypeId(written[j]) == TypeId(items[j]);
    LastIndexOfIsUnique(written, typeId, i);
  }

  /**
   * The case where `getMessageAttach` attaches nothing: the last item with
   * the type id has no field 3. The lookup then decodes the empty message,
   * so attach returns it without touching the list, and field 3 of that
   * item stays unset: no item stores the message that was handed out.
   */
  lemma AttachLeavesUnsetFieldDetached<T>(items: seq<Item>, typeId: int32, decode: Payload -> T)
    requires LastIndexOf(items, typeId).Some?
    requires items[LastIndexOf(items, typeId).value].messageSlot.None?
    ensures Attached(items, typeId) == items
    ensures MessageOf(items, typeId, decode) == Some(decode(EmptyPayload))
    ensures forall p :: p in Accessors(Attached(items, typeId), typeId) ==> p in Accessors(items[..LastIndexOf(items, typeId).value], typeId)
  {
    var i := LastIndexOf(items, typeId).value;
    AccessorsDropUnmatchedTail(items, typeId, i + 1);
    AccessorsAppend(items[..i], [items[i]], typeId);
    assert items[..i + 1] == items[..i] + [items[i]];
  }
}
