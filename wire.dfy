/**
 * How a MessageSet's item list is laid out in the Protocol Buffers binary
 * wire format: every item is a group on field 1 holding the type id as
 * field 2 (a Base-128 varint) and the message as field 3 (a varint length
 * followed by the message bytes); groups follow one another in insertion
 * order. Message bytes are opaque.
 */
module WireFormat {
  import opened Wrappers
  import opened MessageSetItem

  /** Field 1, wire type 3 (start group). */
  const GroupStartTag: byte := 0x0B
  /** Field 1, wire type 4 (end group). */
  const GroupEndTag: byte := 0x0C
  /** Field 2, wire type 0 (varint). */
  const TypeIdTag: byte := 0x10
  /** Field 3, wire type 2 (length delimited). */
  const MessageTag: byte := 0x1A

  const TwoTo32: nat := 0x1_0000_0000
  const TwoTo64: nat := 0x1_0000_0000_0000_0000

  /** A tag byte is the field number shifted left by three, or'ed with the wire type. */
  function Tag(fieldNumber: nat, wireType: nat): nat
    requires wireType < 8
  {
    fieldNumber * 8 + wireType
  }

  lemma TagsMatchFieldLayout()
    ensures GroupStartTag as nat == Tag(1, 3) && GroupEndTag as nat == Tag(1, 4)
    ensures TypeIdTag as nat == Tag(2, 0) && MessageTag as nat == Tag(3, 2)
  {
  }

  // ---------------------------------------------------------------------
  // Base-128 varints

  /** Seven bits per byte, least significant group first; the high bit of
      every byte but the last is set. */
  function EncodeVarint(n: nat): (r: seq<byte>)
    ensures 1 <= |r|
    decreases n
  {
    if n < 0x80 then [n as byte]
    else [(n % 0x80 + 0x80) as byte] + EncodeVarint(n / 0x80)
  }

  /** Every byte of a varint but the last has its continuation bit set. */
  lemma {:induction false} VarintContinuationBits(n: nat)
    ensures var r := EncodeVarint(n);
      r[|r| - 1] < 0x80 && forall k :: 0 <= k < |r| - 1 ==> r[k] >= 0x80
    decreases n
  {
    if n >= 0x80 {
      VarintContinuationBits(n / 0x80);
    }
  }

  /** Reads one varint: its value and the bytes after it, or None when the
      input ends inside it. */
  function DecodeVarint(s: seq<byte>): (r: Option<(nat, seq<byte>)>)
    ensures r.Some? ==> |r.value.1| < |s|
    decreases |s|
  {
    if |s| == 0 then None
    else if s[0] < 0x80 then Some((s[0] as nat, s[1..]))
    else
      match DecodeVarint(s[1..])
      case None => None
      case Some((v, after)) => Some(((s[0] - 0x80) as nat + 0x80 * v, after))
  }

  lemma {:induction false} VarintRoundTrip(n: nat, rest: seq<byte>)
    ensures DecodeVarint(EncodeVarint(n) + rest) == Some((n, rest))
    decreases n
  {
    var e := EncodeVarint(n);
    assert (e + rest)[1..] == e[1..] + rest;
    if n >= 0x80 {
      VarintRoundTrip(n / 0x80, rest);
    }
  }

  // ---------------------------------------------------------------------
  // int32 on the wire

  /** An int32 is written as the varint of its 64-bit two's complement, so a
      negative type id takes ten bytes. */
  function Int32ToVarintValue(t: int32): (u: nat)
    ensures u < TwoTo64
    ensures t >= 0 ==> u == t as nat
  {
    if t < 0 then (t as int + TwoTo64) as nat else t as nat
  }

  /** Reading an int32 keeps the low 32 bits of the varint, as two's complement. */
  function VarintValueToInt32(u: nat): int32
  {
    var low := u % TwoTo32;
    if low < 0x8000_0000 then low as int32 else (low - TwoTo32) as int32
  }

  lemma Int32RoundTrip(t: int32)
    ensures VarintValueToInt32(Int32ToVarintValue(t)) == t
  {
    if t < 0 {
      var u := t as int + TwoTo64;
      assert u == (t as int + TwoTo32) + (TwoTo32 - 1) * TwoTo32;
      assert u % TwoTo32 == t as int + TwoTo32;
    }
  }

  function Pow128(k: nat): (r: nat)
    ensures r >= 1
  {
    if k == 0 then 1 else 0x80 * Pow128(k - 1)
  }

  /** A value in `[128^(k-1), 128^k)` takes exactly `k` bytes. */
  lemma {:induction false} VarintLength(n: nat, k: nat)
    requires 1 <= k && Pow128(k - 1) <= n < Pow128(k)
    ensures |EncodeVarint(n)| == k
    decreases k
  {
    if k > 1 {
      VarintLength(n / 0x80, k - 1);
    }
  }

  /** A negative type id is sign-extended to 64 bits and takes ten bytes. */
  lemma NegativeTypeIdTakesTenBytes(t: int32)
    requires t < 0
    ensures |EncodeVarint(Int32ToVarintValue(t))| == 10
  {
    assert Pow128(3) == 0x20_0000;
    assert Pow128(6) == 0x400_0000_0000;
    assert Pow128(9) == 0x8000_0000_0000_0000;
    assert Pow128(10) == 0x40_0000_0000_0000_0000;
    VarintLength(Int32ToVarintValue(t), 10);
  }

  // ---------------------------------------------------------------------
  // Items and item lists

  /** One item as a group on field 1; a slot that was never written is not
      written. */
  function EncodeItem(item: Item): seq<byte>
  {
    [GroupStartTag] + EncodeTypeIdField(item.typeIdSlot) + EncodeMessageField(item.messageSlot) + [GroupEndTag]
  }

  /** Field 2: its tag and the varint of the type id, or nothing when unset. */
  function EncodeTypeIdField(slot: Option<int32>): seq<byte>
  {
    match slot
    case Some(t) => [TypeIdTag] + EncodeVarint(Int32ToVarintValue(t))
    case None => []
  }

  /** Field 3: its tag, the varint length and the message bytes, or nothing when unset. */
  function EncodeMessageField(slot: Option<Payload>): seq<byte>
  {
    match slot
    case Some(p) => [MessageTag] + EncodeVarint(|p|) + p
    case None => []
  }

  /** The item list: its groups concatenated in insertion order. */
  function EncodeItems(items: seq<Item>): seq<byte>
  {
    if |items| == 0 then [] else EncodeItem(items[0]) + EncodeItems(items[1..])
  }

  /** Reads field 2 if it comes next: the slot and the bytes after it. */
  function DecodeTypeIdField(s: seq<byte>): (r: Option<(Option<int32>, seq<byte>)>)
    ensures r.Some? ==> |r.value.1| <= |s|
  {
    if |s| > 0 && s[0] == TypeIdTag then
      match DecodeVarint(s[1..])
      case None => None
      case Some((u, after)) => Some((Some(VarintValueToInt32(u)), after))
    else Some((None, s))
  }

  /** Reads field 3 if it comes next: the slot and the bytes after it. */
  function DecodeMessageField(s: seq<byte>): (r: Option<(Option<Payload>, seq<byte>)>)
    ensures r.Some? ==> |r.value.1| <= |s|
  {
    if |s| > 0 && s[0] == MessageTag then
      match DecodeVarint(s[1..])
      case None => None
      case Some((len, after)) =>
        if len <= |after| then Some((Some(after[..len]), after[len..])) else None
    else Some((None, s))
  }

  /** Reads one group: the item and the bytes after it. */
  function DecodeItem(s: seq<byte>): (r: Option<(Item, seq<byte>)>)
    ensures r.Some? ==> |r.value.1| < |s|
  {
    if |s| == 0 || s[0] != GroupStartTag then None
    else
      match DecodeTypeIdField(s[1..])
      case None => None
      case Some((typeIdSlot, afterId)) =>
        match DecodeMessageField(afterId)
        case None => None
        case Some((messageSlot, afterMessage)) =>
          if |afterMessage| > 0 && afterMessage[0] == GroupEndTag
          then Some((Item(typeIdSlot, messageSlot), afterMessage[1..]))
          else None
  }

  /** Reads groups until the input ends; None on malformed input. */
  function DecodeItems(s: seq<byte>): Option<seq<Item>>
    decreases |s|
  {
    if |s| == 0 then Some([])
    else
      match DecodeItem(s)
      case None => None
      case Some((item, after)) =>
        match DecodeItems(after)
        case None => None
        case Some(more) => Some([item] + more)
  }

  lemma TypeIdFieldRoundTrip(slot: Option<int32>, rest: seq<byte>)
    requires rest != [] && rest[0] != TypeIdTag
    ensures DecodeTypeIdField(EncodeTypeIdField(slot) + rest) == Some((slot, rest))
  {
    if slot.Some? {
      var t := slot.value;
      var e := EncodeVarint(Int32ToVarintValue(t));
      VarintRoundTrip(Int32ToVarintValue(t), rest);
      Int32RoundTrip(t);
      assert ([TypeIdTag] + e + rest)[1..] == e + rest;
    } else {
      assert EncodeTypeIdField(slot) + rest == rest;
    }
  }

  lemma MessageFieldRoundTrip(slot: Option<Payload>, rest: seq<byte>)
    requires rest != [] && rest[0] != MessageTag
    ensures DecodeMessageField(EncodeMessageField(slot) + rest) == Some((slot, rest))
  {
    if slot.Some? {
      var p := slot.value;
      var e := EncodeVarint(|p|);
      VarintRoundTrip(|p|, p + rest);
      assert ([MessageTag] + e + p + rest)[1..] == e + (p + rest);
      assert (p + rest)[..|p|] == p && (p + rest)[|p|..] == rest;
    } else {
      assert EncodeMessageField(slot) + rest == rest;
    }
  }

  lemma ItemRoundTrip(item: Item, rest: seq<byte>)
    ensures DecodeItem(EncodeItem(item) + rest) == Some((item, rest))
  {
    var idBytes := EncodeTypeIdField(item.typeIdSlot);
    var msgBytes := EncodeMessageField(item.messageSlot);
    var afterMessage := [GroupEndTag] + rest;
    var afterId := msgBytes + afterMessage;
    assert afterId[0] == if item.messageSlot.Some? then MessageTag else GroupEndTag;
    assert (EncodeItem(item) + rest)[1..] == idBytes + afterId;
    TypeIdFieldRoundTrip(item.typeIdSlot, afterId);
    MessageFieldRoundTrip(item.messageSlot, afterMessage);
    assert afterMessage[1..] == rest;
  }

  /** Parsing one encoded group in front of more bytes reads that item
      and goes on with the bytes after it. */
  lemma DecodeItemsCons(item: Item, rest: seq<byte>)
    ensures DecodeItems(EncodeItem(item) + rest) ==
      match DecodeItems(rest)
      case None => None
      case Some(more) => Some([item] + more)
  {
    ItemRoundTrip(item, rest);
    assert (EncodeItem(item) + rest)[0] == GroupStartTag;
  }

  /** Parsing the encoded item list restores every type id and message in
      insertion order. */
  lemma {:induction false} RoundTrip(items: seq<Item>)
    ensures DecodeItems(EncodeItems(items)) == Some(items)
    decreases |items|
  {
    if |items| > 0 {
      var more := EncodeItems(items[1..]);
      assert EncodeItems(items) == EncodeItem(items[0]) + more;
      RoundTrip(items[1..]);
      DecodeItemsCons(items[0], more);
      assert [items[0]] + items[1..] == items;
    }
  }

  /** Adding items appends their groups after the existing bytes. */
  lemma {:induction false} EncodeItemsAppend(a: seq<Item>, b: seq<Item>)
    ensures EncodeItems(a + b) == EncodeItems(a) + EncodeItems(b)
    decreases |a|
  {
    if |a| == 0 {
      assert a + b == b;
    } else {
      assert (a + b)[1..] == a[1..] + b;
      EncodeItemsAppend(a[1..], b);
    }
  }

  // ---------------------------------------------------------------------
  // The container as a field of an enclosing message

  /** A MessageSet held in field `fieldNumber` of another message is an
      ordinary length-delimited field whose contents are the item groups. */
  function EncodeAsField(fieldNumber: nat, items: seq<Item>): seq<byte>
  {
    var body := EncodeItems(items);
    EncodeVarint(Tag(fieldNumber, 2)) + EncodeVarint(|body|) + body
  }

  /** An item with type id 12345 and a short message. */
  lemma ItemLayout12345(p: Payload)
    requires |p| < 0x80
    ensures EncodeItem(Create(12345, p)) == [0x0B, 0x10, 0xB9, 0x60, 0x1A, |p| as byte] + p + [0x0C]
  {
    assert EncodeVarint(12345) == [0xB9, 0x60] by {
      assert EncodeVarint(96) == [0x60];
    }
  }

  lemma EncodeSingle(item: Item)
    ensures EncodeItems([item]) == EncodeItem(item)
  {
    assert [item][1..] == [];
  }

  /** The message `{20: 30}`: field 20 as a varint holding 30. */
  const Field20Is30: Payload := [0xA0, 0x01, 0x1E]
  /** The message `{20: 40}`. */
  const Field20Is40: Payload := [0xA0, 0x01, 0x28]
  /** The group of an item with type id 12345 holding `{20: 30}`. */
  const Group30: seq<byte> := [0x0B, 0x10, 0xB9, 0x60, 0x1A, 0x03, 0xA0, 0x01, 0x1E, 0x0C]
  /** The group of an item with type id 12345 holding `{20: 40}`. */
  const Group40: seq<byte> := [0x0B, 0x10, 0xB9, 0x60, 0x1A, 0x03, 0xA0, 0x01, 0x28, 0x0C]

  /** A one-item set in field 10: tag 0x52, length 10, then the one group. */
  lemma OneItemLayout()
    ensures EncodeAsField(10, [Create(12345, Field20Is30)]) == [0x52, 0x0A] + Group30
  {
    var item := Create(12345, Field20Is30);
    ItemLayout12345(Field20Is30);
    EncodeSingle(item);
  }

  /** Two items of the same type id: two groups in insertion order, length 20. */
  lemma TwoItemLayout()
    ensures EncodeAsField(10, [Create(12345, Field20Is30), Create(12345, Field20Is40)]) ==
      [0x52, 0x14] + Group30 + Group40
  {
    var first, second := Create(12345, Field20Is30), Create(12345, Field20Is40);
    ItemLayout12345(Field20Is30);
    ItemLayout12345(Field20Is40);
    EncodeSingle(first);
    EncodeSingle(second);
    EncodeItemsAppend([first], [second]);
    assert [first] + [second] == [first, second];
  }
}
