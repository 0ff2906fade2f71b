/**
 * The Common Packet Format of a SendRRData payload: interface handle, timeout, item count, and
 * the counted items.
 */
module EnipCpf {
  import opened Wrappers
  import opened Bytes

  const NULL_ADDRESS: U16 := 0x0000
  const UNCONNECTED_DATA: U16 := 0x00B2
  const CPF_HEADER_SIZE := 8

  datatype Item = Item(kind: U16, data: seq<Byte>)

  /** A payload taken apart; `trailing` are the bytes behind the counted items. */
  datatype Message = Message(interface: U32, timeout: U16, items: seq<Item>, trailing: seq<Byte>)

  // ---------------------------------------------------------------- format

  predicate ItemsFit(items: seq<Item>) {
    forall i :: 0 <= i < |items| ==> |items[i].data| < 0x1_0000
  }

  predicate MessageFits(m: Message) {
    |m.items| < 0x1_0000 && ItemsFit(m.items)
  }

  function EncodeItem(item: Item): seq<Byte>
    requires |item.data| < 0x1_0000
  {
    PackU16Le(item.kind) + PackU16Le(|item.data|) + item.data
  }

  function EncodeItems(items: seq<Item>): seq<Byte>
    requires ItemsFit(items)
  {
    if items == [] then [] else EncodeItem(items[0]) + EncodeItems(items[1..])
  }

  function EncodeCpfHeader(interface: U32, timeout: U16, count: U16): seq<Byte> {
    PackU32Le(interface) + PackU16Le(timeout) + PackU16Le(count)
  }

  function EncodeMessage(m: Message): seq<Byte>
    requires MessageFits(m)
  {
    EncodeCpfHeader(m.interface, m.timeout, |m.items|) + EncodeItems(m.items) + m.trailing
  }

  /** The data of the last unconnected-data item. */
  function LastUnconnected(items: seq<Item>): Option<seq<Byte>> {
    if items == [] then None
    else
      var last := items[|items| - 1];
      if last.kind == UNCONNECTED_DATA then Some(last.data) else LastUnconnected(items[..|items| - 1])
  }

  // ---------------------------------------------------------------- loop

  /** Whether a whole item stands at the offset. */
  predicate ItemAt(payload: seq<Byte>, offset: nat) {
    |payload| >= offset + 4 && |payload| >= offset + 4 + UnpackU16Le(payload, offset + 2)
  }

  function ReadItem(payload: seq<Byte>, offset: nat): (item: Item)
    requires ItemAt(payload, offset)
    ensures |item.data| < 0x1_0000 && offset + 4 + |item.data| <= |payload|
  {
    var start := offset + 4;
    Item(UnpackU16Le(payload, offset), payload[start..start + UnpackU16Le(payload, offset + 2)])
  }

  function Select(item: Item, selected: Option<seq<Byte>>): Option<seq<Byte>> {
    if item.kind == UNCONNECTED_DATA then Some(item.data) else selected
  }

  /** The rest of the item loop; `None` when a counted item is truncated or nothing was selected. */
  function SelectFrom(payload: seq<Byte>, offset: nat, count: nat, selected: Option<seq<Byte>>): Option<seq<Byte>>
    decreases count
  {
    if count == 0 then selected
    else if !ItemAt(payload, offset) then None
    else
      var item := ReadItem(payload, offset);
      SelectFrom(payload, offset + 4 + |item.data|, count - 1, Select(item, selected))
  }

  /** The CIP request a SendRRData payload carries, if the server accepts the payload. */
  function SelectRequest(payload: seq<Byte>): Option<seq<Byte>> {
    if |payload| < CPF_HEADER_SIZE || UnpackU32Le(payload, 0) != 0 then None
    else SelectFrom(payload, CPF_HEADER_SIZE, UnpackU16Le(payload, 6), None)
  }

  function TimeoutOf(payload: seq<Byte>): U16
    requires |payload| >= CPF_HEADER_SIZE
  {
    UnpackU16Le(payload, 4)
  }

  // ---------------------------------------------------------------- loop against format

  lemma ReadEncodedItem(prefix: seq<Byte>, item: Item, rest: seq<Byte>)
    requires |item.data| < 0x1_0000
    ensures var payload := prefix + EncodeItem(item) + rest;
            && |EncodeItem(item)| == 4 + |item.data|
            && ItemAt(payload, |prefix|) && ReadItem(payload, |prefix|) == item
  {
  }

  lemma {:induction false} LastUnconnectedCons(item: Item, rest: seq<Item>)
    ensures LastUnconnected([item] + rest)
            == if LastUnconnected(rest).Some? then LastUnconnected(rest) else Select(item, None)
  {
    if rest == [] {
      assert [item] + rest == [item] && [item][..0] == [];
    } else {
      var n := |rest| - 1;
      assert ([item] + rest)[..|rest|] == [item] + rest[..n];
      LastUnconnectedCons(item, rest[..n]);
    }
  }

  lemma {:induction false} SelectEncodedFrom(
      prefix: seq<Byte>, items: seq<Item>, trailing: seq<Byte>, selected: Option<seq<Byte>>)
    requires ItemsFit(items)
    ensures SelectFrom(prefix + EncodeItems(items) + trailing, |prefix|, |items|, selected)
            == if LastUnconnected(items).Some? then LastUnconnected(items) else selected
    decreases |items|
  {
    hide EncodeItem, ItemAt, ReadItem;
    if items != [] {
      var item, rest := items[0], items[1..];
      var prefix' := prefix + EncodeItem(item);
      assert items == [item] + rest;
      assert prefix + EncodeItems(items) + trailing == prefix' + EncodeItems(rest) + trailing;
      assert prefix' + EncodeItems(rest) + trailing == prefix + EncodeItem(item) + (EncodeItems(rest) + trailing);
      ReadEncodedItem(prefix, item, EncodeItems(rest) + trailing);
      LastUnconnectedCons(item, rest);
      SelectEncodedFrom(prefix', rest, trailing, Select(item, selected));
    }
  }

  lemma HeaderOf(m: Message, body: seq<Byte>)
    requires MessageFits(m)
    ensures var payload := EncodeCpfHeader(m.interface, m.timeout, |m.items|) + body;
            && |EncodeCpfHeader(m.interface, m.timeout, |m.items|)| == CPF_HEADER_SIZE
            && UnpackU32Le(payload, 0) == m.interface
            && UnpackU16Le(payload, 4) == m.timeout && UnpackU16Le(payload, 6) == |m.items|
  {
  }

  /** The loop picks the last unconnected-data item and ignores what stands behind the counted items. */
  lemma SelectEncoded(m: Message)
    requires MessageFits(m) && m.interface == 0
    ensures SelectRequest(EncodeMessage(m)) == LastUnconnected(m.items)
    ensures TimeoutOf(EncodeMessage(m)) == m.timeout
  {
    var header := EncodeCpfHeader(m.interface, m.timeout, |m.items|);
    assert EncodeMessage(m) == header + (EncodeItems(m.items) + m.trailing);
    HeaderOf(m, EncodeItems(m.items) + m.trailing);
    hide UnpackU16Le, UnpackU32Le, EncodeCpfHeader;
    SelectEncodedFrom(header, m.items, m.trailing, None);
  }

  lemma ReadItemReencodes(payload: seq<Byte>, offset: nat)
    requires ItemAt(payload, offset)
    ensures var item := ReadItem(payload, offset);
            EncodeItem(item) == payload[offset..offset + 4 + |item.data|]
  {
  }

  /** When the loop runs through, the bytes it passed over are that many encoded items. */
  lemma {:induction false} SelectedIsEncodedFrom(
      payload: seq<Byte>, offset: nat, count: nat, selected: Option<seq<Byte>>)
    returns (items: seq<Item>, trailing: seq<Byte>)
    requires offset <= |payload| && SelectFrom(payload, offset, count, selected).Some?
    ensures ItemsFit(items) && |items| == count
    ensures EncodeItems(items) + trailing == payload[offset..]
    decreases count
  {
    hide EncodeItem, ItemAt, ReadItem;
    if count == 0 {
      items, trailing := [], payload[offset..];
    } else {
      var item := ReadItem(payload, offset);
      ReadItemReencodes(payload, offset);
      var next := offset + 4 + |item.data|;
      var tail;
      tail, trailing := SelectedIsEncodedFrom(payload, next, count - 1, Select(item, selected));
      items := [item] + tail;
      assert items[1..] == tail;
      assert payload[offset..] == payload[offset..next] + payload[next..];
    }
  }

  lemma HeaderReencodes(payload: seq<Byte>)
    requires |payload| >= CPF_HEADER_SIZE
    ensures EncodeCpfHeader(UnpackU32Le(payload, 0), TimeoutOf(payload), UnpackU16Le(payload, 6)) == payload[..8]
  {
    PackOfUnpackU32Le(payload, 0);
    PackOfUnpackU16Le(payload, 4);
    PackOfUnpackU16Le(payload, 6);
    hide UnpackU16Le, UnpackU32Le, PackU16Le, PackU32Le;
    assert payload[..8] == payload[0..4] + payload[4..6] + payload[6..8];
  }

  lemma SelectedIsEncoded(payload: seq<Byte>) returns (m: Message)
    requires SelectRequest(payload).Some?
    ensures MessageFits(m) && m.interface == 0 && EncodeMessage(m) == payload
  {
    hide UnpackU16Le, UnpackU32Le, EncodeCpfHeader, EncodeItems, SelectFrom;
    var items, trailing := SelectedIsEncodedFrom(payload, CPF_HEADER_SIZE, UnpackU16Le(payload, 6), None);
    m := Message(0, TimeoutOf(payload), items, trailing);
    HeaderReencodes(payload);
    assert payload == payload[..8] + payload[8..];
  }

  /**
   * The server finds a request exactly in the well-formed messages for interface 0 that hold an
   * unconnected-data item, and it is the data of the last one.
   */
  lemma SelectsExactly(payload: seq<Byte>, request: seq<Byte>)
    ensures SelectRequest(payload) == Some(request)
            <==> exists m :: MessageFits(m) && EncodeMessage(m) == payload
                             && m.interface == 0 && LastUnconnected(m.items) == Some(request)
  {
    if SelectRequest(payload) == Some(request) {
      var m := SelectedIsEncoded(payload);
      SelectEncoded(m);
    }
    forall m | MessageFits(m) && EncodeMessage(m) == payload
               && m.interface == 0 && LastUnconnected(m.items) == Some(request)
      ensures SelectRequest(payload) == Some(request)
    {
      SelectEncoded(m);
    }
  }

  /** Some list of that many items stands at the front of the body. */
  ghost predicate StartsWithItems(body: seq<Byte>, count: nat) {
    exists items :: ItemsFit(items) && |items| == count && EncodeItems(items) <= body
  }

  ghost predicate StartsWithoutRequest(body: seq<Byte>, count: nat) {
    exists items :: ItemsFit(items) && |items| == count && EncodeItems(items) <= body
                    && LastUnconnected(items).None?
  }

  /**
   * The server refuses a payload exactly when its header is short, its interface handle is not
   * zero, a counted item is truncated, or no counted item is unconnected data.
   */
  lemma RefusesExactly(payload: seq<Byte>)
    ensures SelectRequest(payload).None?
            <==> || |payload| < CPF_HEADER_SIZE
                 || UnpackU32Le(payload, 0) != 0
                 || !StartsWithItems(payload[8..], UnpackU16Le(payload, 6))
                 || StartsWithoutRequest(payload[8..], UnpackU16Le(payload, 6))
  {
    if |payload| >= CPF_HEADER_SIZE && UnpackU32Le(payload, 0) == 0 {
      var count, body := UnpackU16Le(payload, 6), payload[8..];
      forall items | ItemsFit(items) && |items| == count && EncodeItems(items) <= body
        ensures SelectRequest(payload) == LastUnconnected(items)
      {
        var trailing := body[|EncodeItems(items)|..];
        hide UnpackU16Le, UnpackU32Le;
        assert payload == payload[..8] + EncodeItems(items) + trailing;
        SelectEncodedFrom(payload[..8], items, trailing, None);
      }
      if SelectRequest(payload).Some? {
        var items, trailing := SelectedIsEncodedFrom(payload, CPF_HEADER_SIZE, count, None);
        assert EncodeItems(items) <= body;
      }
    }
  }

  /** The longest request a payload can hold: the header and one item header are spent. */
  lemma {:induction false} SelectedLengthFrom(
      payload: seq<Byte>, offset: nat, count: nat, selected: Option<seq<Byte>>)
    requires offset >= CPF_HEADER_SIZE
    requires selected.Some? ==> |selected.value| + 12 <= |payload|
    ensures var r := SelectFrom(payload, offset, count, selected);
            r.Some? ==> |r.value| + 12 <= |payload|
    decreases count
  {
    if count > 0 && ItemAt(payload, offset) {
      var item := ReadItem(payload, offset);
      SelectedLengthFrom(payload, offset + 4 + |item.data|, count - 1, Select(item, selected));
    }
  }

  // ---------------------------------------------------------------- reply

  /** A null address item and one unconnected-data item: every reply, and a client's usual request. */
  function EncodeUnconnected(timeout: U16, response: seq<Byte>): seq<Byte>
    requires |response| < 0x1_0000
  {
    PackU32Le(0) + PackU16Le(timeout) + PackU16Le(2)
    + (PackU16Le(NULL_ADDRESS) + PackU16Le(0))
    + (PackU16Le(UNCONNECTED_DATA) + PackU16Le(|response|))
    + response
  }

  /** A reply is itself a message from which the same loop takes the CIP response. */
  lemma UnconnectedSelects(timeout: U16, response: seq<Byte>)
    requires |response| < 0x1_0000
    ensures |EncodeUnconnected(timeout, response)| == 16 + |response|
    ensures SelectRequest(EncodeUnconnected(timeout, response)) == Some(response)
    ensures TimeoutOf(EncodeUnconnected(timeout, response)) == timeout
  {
    var m := Message(0, timeout, [Item(NULL_ADDRESS, []), Item(UNCONNECTED_DATA, response)], []);
    assert EncodeItems(m.items) == EncodeItem(m.items[0]) + EncodeItems(m.items[1..]);
    assert EncodeItems(m.items[1..]) == EncodeItem(m.items[1]) + EncodeItems(m.items[1..][1..]);
    hide PackU16Le, PackU32Le;
    assert EncodeMessage(m) == EncodeUnconnected(timeout, response);
    SelectEncoded(m);
  }
}
