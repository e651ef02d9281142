/** The `.torrent` file around an info dictionary (src/torrent.rs, src/create.rs): a second scanner finds the exact
    bytes the info hash is taken over, and a torrent in hand is written out again. */
module Torrents {
  import opened Numbers
  import opened Bytes
  import opened Bencode
  import opened BencodeDecoder
  import opened BencodeProofs

  datatype TorrentError = Decoding(error: DecodeError) | NotADict | MissingKey | WrongType | Rejected

  /** The bytes of a plain ASCII key. */
  function Ascii(s: string): (b: seq<byte>)
    requires forall i :: 0 <= i < |s| ==> s[i] as int < 128
    ensures |b| == |s|
  {
    seq(|s|, i requires 0 <= i < |s| => s[i] as int)
  }

  /** The examples of BEP 3. */
  lemma StandardIntegers()
    ensures Encode(Int(3)) == Ascii("i3e") && Encode(Int(-3)) == Ascii("i-3e") && Encode(Int(0)) == Ascii("i0e")
  {
  }

  lemma StandardString()
    ensures Encode(ByteString(Ascii("spam"))) == Ascii("4:spam")
  {
    assert Digits(4) == [52];
    assert Ascii("4:spam") == [52] + [COLON] + Ascii("spam");
  }

  lemma StandardList(a: Value, b: Value)
    ensures Encode(List([a, b])) == Ascii("l") + Encode(a) + Encode(b) + Ascii("e")
  {
    assert EncodeItems([a, b]) == Encode(a) + EncodeItems([b]) && EncodeItems([b]) == Encode(b) + EncodeItems([]);
    assert [a, b][1..] == [b] && [b][1..] == [];
    assert Ascii("l") == [L] && Ascii("e") == [E];
  }

  lemma StandardDict(a: Entry, b: Entry)
    ensures Encode(Dict([a, b]))
         == Ascii("d") + Encode(ByteString(a.key)) + Encode(a.value) + Encode(ByteString(b.key)) + Encode(b.value)
            + Ascii("e")
  {
    TwoEntries(a, b);
    Grouped([D], EncodeBytes(a.key), Encode(a.value), EncodeBytes(b.key), Encode(b.value), [E]);
    assert Ascii("d") == [D] && Ascii("e") == [E];
  }

  lemma TwoEntries(a: Entry, b: Entry)
    ensures EncodeEntries([a, b]) == EncodeBytes(a.key) + Encode(a.value) + (EncodeBytes(b.key) + Encode(b.value))
  {
    assert [a, b][1..] == [b] && [b][1..] == [];
    assert EncodeEntries([b]) == EncodeBytes(b.key) + Encode(b.value) + EncodeEntries([]);
  }

  lemma Grouped(d: seq<byte>, k: seq<byte>, v: seq<byte>, x: seq<byte>, y: seq<byte>, e: seq<byte>)
    ensures d + (k + v + (x + y)) + e == d + k + v + x + y + e
  {
  }

  // ---- find_key_span ----------------------------------------------------------

  /** Scans the entries of a dictionary for a key: what is left at its value, and after it. */
  function FindFrom(s: seq<byte>, key: seq<byte>): Result<(seq<byte>, seq<byte>), TorrentError>
    decreases |s|
  {
    if s == [] then Failure(Decoding(UnexpectedEof))
    else if s[0] == E then Failure(MissingKey)
    else
      match ParseValue(s, 0, true)
      case Err(e, _) => Failure(Decoding(e))
      case Ok(k, rest) => if k.ByteString? then FindAfter(rest, k.b, key) else Failure(WrongType)
  }

  /** The scan from the value of an entry whose key is `k`. */
  function FindAfter(s: seq<byte>, k: seq<byte>, key: seq<byte>): Result<(seq<byte>, seq<byte>), TorrentError>
    decreases |s|
  {
    match ParseValue(s, 0, true)
    case Err(e, _) => Failure(Decoding(e))
    case Ok(_, after) => if k == key then Success((s, after)) else FindFrom(after, key)
  }

  function FindSpan(data: seq<byte>, key: seq<byte>): Result<(int, int), TorrentError> {
    if data == [] || data[0] != D then Failure(NotADict) else SpanOf(|data|, FindFrom(data[1..], key))
  }

  /** Where in a buffer of `n` bytes what is left begins. */
  function SpanOf(n: nat, r: Result<(seq<byte>, seq<byte>), TorrentError>): Result<(int, int), TorrentError> {
    match r
    case Failure(e) => Failure(e)
    case Success((at, after)) => Success((n - |at|, n - |after|))
  }

  /** A fresh strict decoder over the bytes from `pos`: the value there and where it ends. */
  method DecodeAt(data: seq<byte>, pos: nat)
    returns (r: Result<(Value, nat), DecodeError>, ghost outcome: Outcome<Value>)
    requires pos <= |data|
    ensures outcome == ParseValue(data[pos..], 0, true)
    ensures match outcome
      case Err(e, _) => r == Failure(e)
      case Ok(v, rest) => r.Success? && r.value.0 == v && pos < r.value.1 <= |data| && rest == data[r.value.1..]
  {
    var decoder := new Decoder(data[pos..], true);
    var d := decoder.DecodeValueWithSpan();
    outcome := ParseValue(data[pos..], 0, true);
    if d.Failure? {
      return Failure(d.error), outcome;
    }
    var end := pos + d.value.1.1;
    assert data[end..] == data[pos..][d.value.1.1..];
    return Success((d.value.0, end)), outcome;
  }

  datatype Scan = Next(pos: nat) | Stop(result: Result<(int, int), TorrentError>)

  /** One turn of the scan: the key at `pos`, then its value. */
  method ScanEntry(data: seq<byte>, pos: nat, key: seq<byte>, ghost goal: Result<(seq<byte>, seq<byte>), TorrentError>)
    returns (scan: Scan)
    requires pos < |data| && data[pos] != E && goal == FindFrom(data[pos..], key)
    ensures scan.Next? ==> pos < scan.pos <= |data| && goal == FindFrom(data[scan.pos..], key)
    ensures scan.Stop? ==> scan.result == SpanOf(|data|, goal)
  {
    var k, kOutcome := DecodeAt(data, pos);
    if k.Failure? {
      return Stop(Failure(Decoding(k.error)));
    }
    if !k.value.0.ByteString? {
      return Stop(Failure(WrongType));
    }
    scan := ScanValue(data, k.value.1, k.value.0.b, key, goal);
  }

  method ScanValue(data: seq<byte>, start: nat, k: seq<byte>, key: seq<byte>, ghost goal: Result<(seq<byte>,
                   seq<byte>), TorrentError>)
    returns (scan: Scan)
    requires start <= |data| && goal == FindAfter(data[start..], k, key)
    ensures scan.Next? ==> start < scan.pos <= |data| && goal == FindFrom(data[scan.pos..], key)
    ensures scan.Stop? ==> scan.result == SpanOf(|data|, goal)
  {
    var v, vOutcome := DecodeAt(data, start);
    if v.Failure? {
      return Stop(Failure(Decoding(v.error)));
    }
    if k == key {
      return Stop(Success((start, v.value.1)));
    }
    return Next(v.value.1);
  }

  lemma FindEnd(s: seq<byte>, key: seq<byte>)
    requires s == [] || s[0] == E
    ensures FindFrom(s, key) == Failure(if s == [] then Decoding(UnexpectedEof) else MissingKey)
  {
  }

  method FindKeySpan(data: seq<byte>, key: seq<byte>) returns (r: Result<(int, int), TorrentError>)
    ensures r == FindSpan(data, key)
  {
    if data == [] || data[0] != D {
      return Failure(NotADict);
    }
    ghost var goal := FindFrom(data[1..], key);
    var pos := 1;
    while true
      invariant 1 <= pos <= |data| && goal == FindFrom(data[pos..], key)
      decreases |data| - pos
    {
      if pos == |data| || data[pos] == E {
        FindEnd(data[pos..], key);
        return Failure(if pos == |data| then Decoding(UnexpectedEof) else MissingKey);
      }
      var scan := ScanEntry(data, pos, key, goal);
      if scan.Stop? {
        return scan.result;
      }
      pos := scan.pos;
    }
  }

  /** Over the entries of a canonical dictionary the scanner finds exactly what a lookup finds: the value has `before`
      in front of it and leaves `after`. */
  lemma {:induction false} FindInEntries(entries: seq<Entry>, key: seq<byte>, rest: seq<byte>)
    returns (before: seq<byte>, after: seq<byte>)
    requires WellFormedEntries(entries) && NestEntries(entries) <= MAX_DEPTH
    ensures Lookup(entries, key).None? ==> FindFrom(EncodeEntries(entries) + [E] + rest, key) == Failure(MissingKey)
    ensures Lookup(entries, key).Some? ==>
      && EncodeEntries(entries) + [E] + rest == before + (Encode(Lookup(entries, key).value) + after)
      && FindFrom(EncodeEntries(entries) + [E] + rest,
                  key) == Success((Encode(Lookup(entries, key).value) + after, after))
    decreases |entries|
  {
    before, after := [], [];
    if entries == [] {
      assert EncodeEntries(entries) + [E] + rest == [E] + rest;
    } else {
      var k, v := entries[0].key, entries[0].value;
      var mid := EncodeEntries(entries[1..]) + [E] + rest;
      EntriesFront(entries, rest);
      KeyRead(k, Encode(v) + mid);
      ReadBack(v, 0, true, mid);
      if k == key {
        before, after := EncodeBytes(k), mid;
      } else {
        before, after := FindInEntries(entries[1..], key, rest);
        Assoc3(EncodeBytes(k), Encode(v), mid);
        if Lookup(entries, key).Some? {
          Assoc3(EncodeBytes(k) + Encode(v), before, Encode(Lookup(entries, key).value) + after);
        }
        before := EncodeBytes(k) + Encode(v) + before;
      }
    }
  }

  lemma KeyRead(key: seq<byte>, rest: seq<byte>)
    requires |key| <= I64_MAX
    ensures ParseValue(EncodeBytes(key) + rest, 0, true) == Ok(ByteString(key), rest)
  {
    ReadBack(ByteString(key), 0, true, rest);
  }

  /** The two parsers agree: of a buffer strict decoding accepts as a dictionary, the span found for a key is that
      entry's own bytes, which are its encoding and decode to it; a key that is not there is not found. */
  lemma ParsersAgree(data: seq<byte>, key: seq<byte>)
    requires Decode(data, true).Success? && Decode(data, true).value.Dict?
    ensures match Lookup(Decode(data, true).value.entries, key)
      case None => FindSpan(data, key) == Failure(MissingKey)
      case Some(v) =>
        && FindSpan(data, key).Success?
        && var (start, end) := FindSpan(data, key).value;
        && 0 <= start < end <= |data|
        && data[start..end] == Encode(v)
        && Decode(data[start..end], true) == Success(v)
  {
    var top := Decode(data, true).value;
    DecodeStrict(data, top);
    SpanInDict(data, top.entries, key);
    if Lookup(top.entries, key).Some? {
      LookupNested(top.entries, key);
      DecodeEncoded(Lookup(top.entries, key).value, true);
    }
  }

  lemma SpanInDict(data: seq<byte>, entries: seq<Entry>, key: seq<byte>)
    requires data == Encode(Dict(entries)) && WellFormedEntries(entries) && NestEntries(entries) <= MAX_DEPTH
    ensures match Lookup(entries, key)
      case None => FindSpan(data, key) == Failure(MissingKey)
      case Some(v) =>
        && FindSpan(data, key).Success?
        && var (start, end) := FindSpan(data, key).value;
        && 0 <= start < end <= |data| && data[start..end] == Encode(v)
  {
    var before, after := FindInEntries(entries, key, []);
    DictTail(data, entries);
    if Lookup(entries, key).Some? {
      var v := Lookup(entries, key).value;
      EncodingBegins(v);
      Middle([D], before, Encode(v), after);
    }
  }

  lemma DictTail(data: seq<byte>, entries: seq<Entry>)
    requires data == Encode(Dict(entries))
    ensures var s := EncodeEntries(entries) + [E] + []; data == [D] + s && data != [] && data[0] == D && data[1..] == s
  {
    EncodingTail(Dict(entries), []);
    assert Encode(Dict(entries)) + [] == data;
    assert data == [data[0]] + data[1..];
  }

  lemma Middle(tag: seq<byte>, before: seq<byte>, found: seq<byte>, after: seq<byte>)
    ensures var data, start := tag + (before + (found + after)), |tag| + |before|;
      && |data| - |found + after| == start && |data| - |after| == start + |found|
      && data[start..start + |found|] == found
  {
  }

  lemma {:induction false} LookupNested(entries: seq<Entry>, key: seq<byte>)
    requires Lookup(entries, key).Some? && WellFormedEntries(entries)
    ensures WellFormed(Lookup(entries, key).value) && Nest(Lookup(entries, key).value) <= NestEntries(entries)
    decreases |entries|
  {
    if entries[0].key != key { LookupNested(entries[1..], key); }
  }
}
