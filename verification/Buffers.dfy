/** The codec as the source runs it: items are appended to a growing buffer with
    the length patched in afterwards, and bodies are consumed item by item.
 */
module Buffers {
  import opened Types
  import opened Wire
  import opened Codec

  /** `BytesMut`. */
  class ByteBuffer {
    var bytes: Bytes

    constructor ()
      ensures bytes == []
    {
      bytes := [];
    }

    method PutSlice(s: Bytes)
      modifies this
      ensures bytes == old(bytes) + s
    {
      bytes := bytes + s;
    }

    method PutU16(n: u16)
      modifies this
      ensures bytes == old(bytes) + Put(n, 2)
    {
      bytes := bytes + Put(n, 2);
    }

    method Truncate(length: nat)
      requires length <= |bytes|
      modifies this
      ensures bytes == old(bytes)[..length]
    {
      bytes := bytes[..length];
    }

    /** Overwrite two octets in place. */
    method Patch(pos: nat, n: u16)
      requires pos + 2 <= |bytes|
      modifies this
      ensures bytes == old(bytes)[..pos] + Put(n, 2) + old(bytes)[pos + 2..]
    {
      var s := Put(n, 2);
      bytes := bytes[pos := s[0]][pos + 1 := s[1]];
    }

    method SplitTo(n: nat) returns (head: Bytes)
      requires n <= |bytes|
      modifies this
      ensures head == old(bytes)[..n] && bytes == old(bytes)[n..]
    {
      head := bytes[..n];
      bytes := bytes[n..];
    }
  }

  /** Variable-length items are measured before anything is written. */
  function Projected(item: DataItem): Option<nat> {
    match item
    case Status(_, text) => Some(1 + |text|)
    case PeerType(_, description) => Some(1 + |description|)
    case ExtensionsSupported(ids) => Some(2 * |ids|)
    case _ => None
  }

  /** `RawDataItem::encode`. */
  method EncodeRaw(kind: u16, value: Bytes, out: ByteBuffer) returns (error: Option<CodecError>)
    modifies out
    ensures error == TooLong(|value|)
    ensures out.bytes == old(out.bytes) + if error.None? then Put(kind, 2) + Put(|value|, 2) + value else []
  {
    if |value| >= 0x1_0000 { return Some(OutOfRange(ItemLength, |value|)); }
    hide Put;
    out.PutU16(kind);
    out.PutU16(|value|);
    out.PutSlice(value);
    assert out.bytes == old(out.bytes) + (Put(kind, 2) + Put(|value|, 2) + value);
    return None;
  }

  /** Write the type, a placeholder and the value, then the length over the placeholder. */
  method WritePatched(kind: u16, value: Bytes, error: Option<CodecError>, out: ByteBuffer)
    requires error.None? ==> |value| < 0x1_0000
    modifies out
    ensures |old(out.bytes)| <= |out.bytes| && out.bytes[..|old(out.bytes)|] == old(out.bytes)
    ensures error.None? ==> out.bytes == old(out.bytes) + (Put(kind, 2) + Put(|value|, 2) + value)
  {
    hide Put;
    out.PutU16(kind);
    var position := |out.bytes|;
    out.PutU16(0);
    var start := |out.bytes|;
    if error.Some? { return; }
    ghost var before := out.bytes[..position];
    out.PutSlice(value);
    var length := |out.bytes| - start;
    out.Patch(position, length);
    assert out.bytes == before + Put(length, 2) + value;
  }

  /** What lies behind the prefix after a failure is unspecified. */
  method EncodeInto(item: DataItem, out: ByteBuffer) returns (error: Option<CodecError>)
    modifies out
    ensures error == EncodeError(item)
    ensures |old(out.bytes)| <= |out.bytes| && out.bytes[..|old(out.bytes)|] == old(out.bytes)
    ensures error.None? ==> out.bytes == old(out.bytes) + Tlv(item)
  {
    hide Put;
    if item.Unknown? {
      error := EncodeRaw(item.typeId, item.value, out);
      return;
    }
    var projected := Projected(item);
    if projected.Some? && projected.value >= 0x1_0000 {
      return Some(OutOfRange(ItemLength, projected.value));
    }
    error := EncodeError(item);
    assert error.None? ==> ValueLength(item) < 0x1_0000;
    hide EncodeError, Value, TypeId;
    WritePatched(TypeId(item), Value(item), error, out);
  }

  /** All or nothing: the buffer gains type, length and value, or is unchanged. */
  method EncodeItem(item: DataItem, out: ByteBuffer) returns (error: Option<CodecError>)
    modifies out
    ensures error == EncodeError(item)
    ensures out.bytes == old(out.bytes) + if error.None? then Tlv(item) else []
  {
    var length := |out.bytes|;
    error := EncodeInto(item, out);
    hide EncodeError, Tlv;
    if error.Some? {
      out.Truncate(length);
    }
  }

  method EncodeMessageBytes(msg: Message) returns (r: Result<Bytes>)
    ensures r == EncodeMessage(msg)
  {
    var body := new ByteBuffer();
    hide EncodeError, Tlv, Put;
    for i := 0 to |msg.items|
      invariant FirstError(msg.items[..i]).None?
      invariant body.bytes == Body(msg.items[..i])
    {
      var error := EncodeItem(msg.items[i], body);
      assert msg.items[..i + 1][..i] == msg.items[..i];
      if error.Some? {
        ErrorStays(msg.items, i + 1);
        return Err(error.value);
      }
    }
    assert msg.items[..|msg.items|] == msg.items;
    if |body.bytes| >= 0x1_0000 {
      return Err(OutOfRange(MessageLength, |body.bytes|));
    }
    var out := new ByteBuffer();
    out.PutU16(msg.messageType);
    out.PutU16(|body.bytes|);
    out.PutSlice(body.bytes);
    assert out.bytes == Put(msg.messageType, 2) + Put(|body.bytes|, 2) + body.bytes;
    return Ok(out.bytes);
  }

  /** The first error is the error of the whole. */
  lemma {:induction false} ErrorStays(items: seq<DataItem>, n: nat)
    requires n <= |items| && FirstError(items[..n]).Some?
    ensures FirstError(items) == FirstError(items[..n])
    decreases |items| - n
  {
    hide EncodeError;
    if n == |items| {
      assert items[..n] == items;
    } else {
      assert items[..n + 1][..n] == items[..n];
      ErrorStays(items, n + 1);
    }
  }

  lemma OneMoreId(v: Bytes, i: nat)
    requires |v| % 2 == 0 && i % 2 == 0 && i < |v|
    ensures i + 2 <= |v| && GetIds(v[..i + 2]) == GetIds(v[..i]) + [GetU16(v[i..i + 2])]
  {
    hide GetU16;
    var upto := v[..i + 2];
    assert upto[..|upto| - 2] == v[..i] && upto[|upto| - 2..] == v[i..i + 2];
  }

  /** The extension identifiers of a value of even length. */
  method ReadIds(v: Bytes) returns (ids: seq<u16>)
    requires |v| % 2 == 0
    ensures ids == GetIds(v)
  {
    hide GetU16;
    ids := [];
    var i := 0;
    while i < |v|
      invariant i % 2 == 0 && 0 <= i <= |v|
      invariant ids == GetIds(v[..i])
    {
      OneMoreId(v, i);
      ids := ids + [GetU16(v[i..i + 2])];
      i := i + 2;
    }
    assert v[..i] == v;
  }

  /** Put items already read in front of what the rest decodes to. */
  function After(items: seq<DataItem>, rest: Result<seq<DataItem>>): Result<seq<DataItem>> {
    if rest.Err? then rest else Ok(items + rest.value)
  }

  /** `RawDataItem::decode` on the buffer. */
  method TakeRaw(body: ByteBuffer) returns (r: Result<Raw>)
    modifies body
    ensures SplitItem(old(body.bytes)).Err? ==> r == SplitItem(old(body.bytes))
    ensures SplitItem(old(body.bytes)).Ok? ==> r == SplitItem(old(body.bytes)) && body.bytes == r.value.rest
  {
    hide Get;
    ghost var before := body.bytes;
    if |body.bytes| < 4 { return Err(Truncated(4, |body.bytes|)); }
    var header := body.SplitTo(4);
    assert header[..2] == before[..2] && header[2..] == before[2..4];
    var kind, length := GetU16(header[..2]), GetU16(header[2..]);
    if |body.bytes| < length { return Err(Truncated(length, |body.bytes|)); }
    var value := body.SplitTo(length);
    assert value == before[4..4 + length] && body.bytes == before[4 + length..];
    return Ok(Raw(kind, value, body.bytes));
  }

  /** The body loop: consume a raw item, lift it, go on. */
  method DecodeItems(body: ByteBuffer) returns (r: Result<seq<DataItem>>)
    modifies body
    ensures r == DecodeBody(old(body.bytes))
    ensures r.Ok? ==> body.bytes == []
  {
    var items := [];
    ghost var all := DecodeBody(body.bytes);
    assert all.Ok? ==> [] + all.value == all.value;
    hide DecodeItem, SplitItem;
    while body.bytes != []
      invariant After(items, DecodeBody(body.bytes)) == all
      decreases |body.bytes|
    {
      var raw := TakeRaw(body);
      if raw.Err? { return Err(raw.error); }
      var item := DecodeItem(raw.value.kind, raw.value.value);
      if item.Err? { return Err(item.error); }
      ghost var rest := DecodeBody(body.bytes);
      if rest.Ok? {
        assert (items + [item.value]) + rest.value == items + ([item.value] + rest.value);
      }
      items := items + [item.value];
    }
    assert items + [] == items;
    return Ok(items);
  }
}
