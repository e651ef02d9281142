/** `encode` and `encode_into` of src/bencode.rs: the encoding appended to a buffer, value by value. */
module BencodeEncoder {
  import opened Bytes
  import opened Bencode

  lemma ItemsFrom(items: seq<Value>, n: nat, out: seq<byte>)
    requires n < |items|
    ensures out + EncodeItems(items[n..]) == out + Encode(items[n]) + EncodeItems(items[n + 1..])
  {
    assert items[n..][1..] == items[n + 1..];
  }

  lemma EntriesFrom(entries: seq<Entry>, n: nat, out: seq<byte>)
    requires n < |entries|
    ensures out + EncodeEntries(entries[n..])
         == out + EncodeBytes(entries[n].key) + Encode(entries[n].value) + EncodeEntries(entries[n + 1..])
  {
    assert entries[n..][1..] == entries[n + 1..];
  }

  method EncodeInto(value: Value, before: seq<byte>) returns (out: seq<byte>)
    ensures out == before + Encode(value)
    decreases value, 1
  {
    match value
    case Int(i) =>
      out := before + [I];
      out := out + SignedDigits(i);
      out := out + [E];
    case ByteString(b) =>
      out := before + EncodeBytes(b);
    case List(items) =>
      out := EncodeItemsInto(items, before + [L]);
      out := out + [E];
    case Dict(entries) =>
      out := EncodeEntriesInto(entries, before + [D]);
      out := out + [E];
  }

  method EncodeItemsInto(items: seq<Value>, before: seq<byte>) returns (out: seq<byte>)
    ensures out == before + EncodeItems(items)
    decreases items, 0
  {
    out := before;
    assert items[0..] == items;
    for n := 0 to |items|
      invariant out + EncodeItems(items[n..]) == before + EncodeItems(items)
    {
      ItemsFrom(items, n, out);
      out := EncodeInto(items[n], out);
    }
  }

  method EncodeEntriesInto(entries: seq<Entry>, before: seq<byte>) returns (out: seq<byte>)
    ensures out == before + EncodeEntries(entries)
    decreases entries, 0
  {
    out := before;
    assert entries[0..] == entries;
    for n := 0 to |entries|
      invariant out + EncodeEntries(entries[n..]) == before + EncodeEntries(entries)
    {
      EntriesFrom(entries, n, out);
      out := out + EncodeBytes(entries[n].key);
      out := EncodeInto(entries[n].value, out);
    }
  }
}
