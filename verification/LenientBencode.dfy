/** What `decode_lenient` makes of dictionaries whose keys are in any order and come again (src/bencode.rs), as the
    headers of other clients' messages have them. */
module LenientBencode {
  import opened Numbers
  import opened Bytes
  import opened Bencode
  import opened BencodeProofs

  // ---- values with dictionaries in any order ---------------------------------------

  /** A value that can be written out: as `WellFormed`, with the keys of dictionaries in any order. */
  predicate Writable(v: Value)
    decreases v, 1
  {
    match v
    case Int(i) => I64_MIN <= i <= I64_MAX
    case ByteString(b) => |b| <= I64_MAX
    case List(items) => WritableItems(items)
    case Dict(entries) => WritableEntries(entries)
  }

  predicate WritableItems(items: seq<Value>)
    decreases items, 0
  {
    items == [] || (Writable(items[0]) && WritableItems(items[1..]))
  }

  predicate WritableEntries(entries: seq<Entry>)
    decreases entries, 0
  {
    entries == [] || (|entries[0].key| <= I64_MAX && Writable(entries[0].value) && WritableEntries(entries[1..]))
  }

  /** The value with every dictionary sorted, the first of each key kept. */
  function Canon(v: Value): Value
    decreases v, 1
  {
    match v
    case Int(_) => v
    case ByteString(_) => v
    case List(items) => List(CanonItems(items))
    case Dict(entries) => Dict(PutAll([], entries))
  }

  function CanonItems(items: seq<Value>): seq<Value>
    decreases items, 0
  {
    if items == [] then [] else [Canon(items[0])] + CanonItems(items[1..])
  }

  /** Entries put into a map one after another, those whose key is there left out. */
  function PutAll(m: seq<Entry>, entries: seq<Entry>): seq<Entry>
    decreases entries, 0
  {
    if entries == [] then m else PutAll(PutNew(m, entries[0].key, Canon(entries[0].value)), entries[1..])
  }

  function CanonOf(v: Option<Value>): Option<Value> {
    if v.None? then None else Some(Canon(v.value))
  }

  lemma {:induction false} PutAllSorted(m: seq<Entry>, entries: seq<Entry>)
    requires SortedFrom(None, m)
    ensures SortedFrom(None, PutAll(m, entries))
    decreases |entries|
  {
    if entries != [] {
      PutNewKeeps(None, m, entries[0].key, Canon(entries[0].value));
      PutAllSorted(PutNew(m, entries[0].key, Canon(entries[0].value)), entries[1..]);
    }
  }

  /** What is under a key is what was there, or what came first under it. */
  lemma {:induction false} PutAllLookup(m: seq<Entry>, entries: seq<Entry>, k: seq<byte>)
    requires SortedFrom(None, m)
    ensures Lookup(PutAll(m, entries), k)
         == if Lookup(m, k).Some? then Lookup(m, k) else CanonOf(Lookup(entries, k))
    decreases |entries|
  {
    if entries != [] {
      var key, v := entries[0].key, Canon(entries[0].value);
      PutNewKeeps(None, m, key, v);
      LookupPut(None, m, key, v, k);
      PutAllLookup(PutNew(m, key, v), entries[1..], k);
    }
  }

  /** Two sorted maps with the same under every key are the same. */
  lemma {:induction false} SortedUnique(last: Option<seq<byte>>, m: seq<Entry>, n: seq<Entry>)
    requires SortedFrom(last, m) && SortedFrom(last, n) && forall k :: Lookup(m, k) == Lookup(n, k)
    ensures m == n
    decreases |m|
  {
    assert m != [] ==> Lookup(m, m[0].key).Some? && Lookup(n, m[0].key).Some?;
    assert n != [] ==> Lookup(n, n[0].key).Some? && Lookup(m, n[0].key).Some?;
    if m != [] && n != [] {
      FirstKey(m, n);
      FirstKey(n, m);
      LexTotal(m[0].key, n[0].key);
      assert Lookup(m, m[0].key) == Lookup(n, m[0].key);
      forall k ensures Lookup(m[1..], k) == Lookup(n[1..], k) {
        assert Lookup(m, k) == Lookup(n, k);
        KeyNotAgain(m);
        KeyNotAgain(n);
      }
      SortedUnique(Some(m[0].key), m[1..], n[1..]);
      assert m == [m[0]] + m[1..] && n == [n[0]] + n[1..];
    }
  }

  lemma KeyNotAgain(m: seq<Entry>)
    requires m != [] && SortedFrom(Some(m[0].key), m[1..])
    ensures Lookup(m[1..], m[0].key) == None
  {
    forall i | 0 <= i < |m[1..]| ensures m[1..][i].key != m[0].key {
      SortedAbove(m[0].key, m[1..], i);
      LexTotal(m[0].key, m[1..][i].key);
    }
    AbsentKey(m[1..], m[0].key);
  }

  /** The first key of one sorted map is not below that of another that has it. */
  lemma FirstKey(m: seq<Entry>, n: seq<Entry>)
    requires m != [] && n != [] && SortedFrom(Some(n[0].key), n[1..]) && Lookup(n, m[0].key).Some?
    ensures !LexLess(m[0].key, n[0].key)
  {
    if LexLess(m[0].key, n[0].key) {
      NotBelow(m[0].key, n);
    }
  }

  // ---- a sorted value is its own ----------------------------------------------------

  lemma {:induction false} CanonOfWellFormed(v: Value)
    requires WellFormed(v)
    ensures Canon(v) == v && Writable(v)
    decreases v, 1
  {
    match v
    case Int(_) =>
    case ByteString(_) =>
    case List(items) => CanonOfItems(items);
    case Dict(entries) =>
      assert [] + entries == entries;
      CanonOfEntries([], entries);
  }

  lemma {:induction false} CanonOfItems(items: seq<Value>)
    requires WellFormedItems(items)
    ensures CanonItems(items) == items && WritableItems(items)
    decreases items, 0
  {
    if items != [] {
      CanonOfWellFormed(items[0]);
      CanonOfItems(items[1..]);
    }
  }

  lemma {:induction false} CanonOfEntries(m: seq<Entry>, entries: seq<Entry>)
    requires WellFormedEntries(entries) && SortedFrom(None, m + entries)
    ensures PutAll(m, entries) == m + entries && WritableEntries(entries)
    decreases entries, 0
  {
    if entries == [] {
      assert m + entries == m;
    } else {
      CanonOfWellFormed(entries[0].value);
      PutNext(m, entries);
      CanonOfEntries(m + [entries[0]], entries[1..]);
    }
  }

  lemma {:induction false} CanonOfSimple(entries: seq<Entry>)
    requires WellFormedEntries(entries)
    ensures WritableEntries(entries)
    ensures forall k :: CanonOf(Lookup(entries, k)) == Lookup(entries, k)
    decreases |entries|
  {
    if entries != [] {
      CanonOfWellFormed(entries[0].value);
      CanonOfSimple(entries[1..]);
    }
  }

  // ---- what was written is read, made canonical -------------------------------------

  lemma {:induction false} LenientReadBack(v: Value, depth: nat, rest: seq<byte>)
    requires Writable(v)
    ensures ReadsAs(ParseValue(Encode(v) + rest, depth, false), Fits(depth, Nest(v)), Canon(v), rest)
    decreases v, 1
  {
    EncodingTail(v, rest);
    match v
    case Int(i) => SignedReadBack(i, E, rest);
    case ByteString(b) => BytesReadBack(b, rest);
    case List(items) =>
      LenientItemsReadBack(items, depth + 1, [], rest);
      assert [] + CanonItems(items) == CanonItems(items);
    case Dict(entries) =>
      LenientEntriesReadBack(entries, depth + 1, [], rest);
  }

  lemma {:induction false} LenientItemsReadBack(items: seq<Value>, depth: nat, before: seq<Value>, rest: seq<byte>)
    requires WritableItems(items)
    ensures ReadsAs(ParseItems(EncodeItems(items) + [E] + rest, depth, false, before), Fits(depth, NestItems(items)),
                    before + CanonItems(items), rest)
    decreases items, 0
  {
    var s := EncodeItems(items) + [E] + rest;
    if items == [] {
      assert s == [E] + rest && before + CanonItems(items) == before;
    } else {
      var mid := EncodeItems(items[1..]) + [E] + rest;
      ItemsFront(items, rest);
      LenientReadBack(items[0], depth, mid);
      if Fits(depth, Nest(items[0])) {
        LenientItemsReadBack(items[1..], depth, before + [Canon(items[0])], rest);
        Assoc3(before, [Canon(items[0])], CanonItems(items[1..]));
      }
    }
  }

  lemma {:induction false} LenientEntriesReadBack(entries: seq<Entry>, depth: nat, m: seq<Entry>, rest: seq<byte>)
    requires WritableEntries(entries)
    ensures ReadsAs(ParseEntries(EncodeEntries(entries) + [E] + rest, depth, false, None, m),
                    Fits(depth, NestEntries(entries)), PutAll(m, entries), rest)
    decreases entries, 0
  {
    var s := EncodeEntries(entries) + [E] + rest;
    if entries == [] {
      assert s == [E] + rest;
    } else {
      var key, v := entries[0].key, entries[0].value;
      var mid := EncodeEntries(entries[1..]) + [E] + rest;
      EntriesFront(entries, rest);
      BytesReadBack(key, Encode(v) + mid);
      LenientReadBack(v, depth, mid);
      OneEntry(s, depth, m, key, Encode(v) + mid);
      if Fits(depth, Nest(v)) {
        LenientEntriesReadBack(entries[1..], depth, PutNew(m, key, Canon(v)), rest);
      }
    }
  }

  /** One turn of the loop. */
  lemma OneEntry(s: seq<byte>, depth: nat, m: seq<Entry>, key: seq<byte>, after: seq<byte>)
    requires s != [] && s[0] != E && ParseBytes(s) == Ok(key, after)
    ensures var r := ParseValue(after, depth, false);
      ParseEntries(s, depth, false, None, m)
      == if r.Err? then Err(r.error, r.rest) else ParseEntries(r.rest, depth, false, None, PutNew(m, key, r.value))
  {
  }

  // ---- and nothing else is read ------------------------------------------------------

  predicate IsWritten(s: seq<byte>, depth: nat, v: Value, rest: seq<byte>) {
    Writable(v) && Fits(depth, Nest(v)) && s == Encode(v) + rest
  }

  predicate AreWrittenItems(s: seq<byte>, depth: nat, items: seq<Value>, rest: seq<byte>) {
    WritableItems(items) && Fits(depth, NestItems(items)) && s == EncodeItems(items) + [E] + rest
  }

  predicate AreWrittenEntries(s: seq<byte>, depth: nat, entries: seq<Entry>, rest: seq<byte>) {
    WritableEntries(entries) && Fits(depth, NestEntries(entries)) && s == EncodeEntries(entries) + [E] + rest
  }

  /** What is read was written: some value in any order, of which this is the canonical form. */
  lemma {:induction false} LenientWrittenBack(s: seq<byte>, depth: nat) returns (v: Value)
    requires ParseValue(s, depth, false).Ok?
    ensures IsWritten(s, depth, v, ParseValue(s, depth, false).rest) && Canon(v) == ParseValue(s, depth, false).value
    decreases |s|, 0
  {
    if s[0] == L {
      v := ListWrittenBack(s, depth);
    } else if s[0] == D {
      v := DictWrittenBack(s, depth);
    } else if s[0] == I {
      var r := ParseSigned(s[1..], E);
      SignedWrittenBack(s[1..], E);
      IntEncoding(s, depth, r.value, r.rest);
      v := Int(r.value);
    } else {
      BytesWrittenBack(s);
      v := ByteString(ParseBytes(s).value);
    }
  }

  lemma WrittenList(s: seq<byte>, depth: nat, items: seq<Value>, rest: seq<byte>)
    requires s != [] && s[0] == L && depth < MAX_DEPTH && AreWrittenItems(s[1..], depth + 1, items, rest)
    ensures IsWritten(s, depth, List(items), rest)
  {
    Prefixed(L, s, EncodeItems(items), [E], rest);
  }

  lemma WrittenDict(s: seq<byte>, depth: nat, entries: seq<Entry>, rest: seq<byte>)
    requires s != [] && s[0] == D && depth < MAX_DEPTH && AreWrittenEntries(s[1..], depth + 1, entries, rest)
    ensures IsWritten(s, depth, Dict(entries), rest)
  {
    Prefixed(D, s, EncodeEntries(entries), [E], rest);
  }

  lemma {:induction false} ListWrittenBack(s: seq<byte>, depth: nat) returns (v: Value)
    requires s != [] && s[0] == L && ParseValue(s, depth, false).Ok?
    ensures IsWritten(s, depth, v, ParseValue(s, depth, false).rest) && Canon(v) == ParseValue(s, depth, false).value
    decreases |s|, -1
  {
    var r := ParseItems(s[1..], depth + 1, false, []);
    var items := ItemsWrittenBack(s[1..], depth + 1, []);
    WrittenList(s, depth, items, r.rest);
    ListOf(s, s[1..], depth, false);
    assert [] + CanonItems(items) == CanonItems(items);
    v := List(items);
  }

  lemma {:induction false} DictWrittenBack(s: seq<byte>, depth: nat) returns (v: Value)
    requires s != [] && s[0] == D && ParseValue(s, depth, false).Ok?
    ensures IsWritten(s, depth, v, ParseValue(s, depth, false).rest) && Canon(v) == ParseValue(s, depth, false).value
    decreases |s|, -1
  {
    DictFrom(s, depth, false);
    var r := ParseEntries(s[1..], depth + 1, false, None, []);
    var entries := EntriesWrittenBack(s[1..], depth + 1, []);
    WrittenDict(s, depth, entries, r.rest);
    DictOf(s, s[1..], depth, false);
    v := Dict(entries);
  }

  lemma {:induction false} ItemsWrittenBack(s: seq<byte>, depth: nat, before: seq<Value>) returns (items: seq<Value>)
    requires ParseItems(s, depth, false, before).Ok?
    ensures AreWrittenItems(s, depth, items, ParseItems(s, depth, false, before).rest)
    ensures ParseItems(s, depth, false, before).value == before + CanonItems(items)
    decreases |s|, 1
  {
    if s[0] == E {
      assert s == [] + [E] + s[1..];
      assert before + [] == before;
      items := [];
    } else {
      var r := ParseValue(s, depth, false);
      var v := LenientWrittenBack(s, depth);
      var rest := ItemsWrittenBack(r.rest, depth, before + [r.value]);
      items := [v] + rest;
      TailOf(v, rest);
      Assoc4(Encode(v), EncodeItems(rest), [E], ParseItems(s, depth, false, before).rest);
      Assoc3(before, [r.value], CanonItems(rest));
    }
  }

  lemma {:induction false} EntriesWrittenBack(s: seq<byte>, depth: nat, m: seq<Entry>) returns (entries: seq<Entry>)
    requires ParseEntries(s, depth, false, None, m).Ok?
    ensures AreWrittenEntries(s, depth, entries, ParseEntries(s, depth, false, None, m).rest)
    ensures ParseEntries(s, depth, false, None, m).value == PutAll(m, entries)
    decreases |s|, 1
  {
    if s[0] == E {
      assert s == [] + [E] + s[1..];
      entries := [];
    } else {
      var k := ParseBytes(s);
      BytesWrittenBack(s);
      OneEntry(s, depth, m, k.value, k.rest);
      var v := LenientWrittenBack(k.rest, depth);
      var rest := EntriesWrittenBack(ParseValue(k.rest, depth, false).rest, depth, PutNew(m, k.value, Canon(v)));
      entries := [Entry(k.value, v)] + rest;
      TailOf(Entry(k.value, v), rest);
      EntriesSplit(entries, ParseEntries(s, depth, false, None, m).rest);
    }
  }

  // ---- the results -------------------------------------------------------------------

  /** What lenient `decode` accepts is exactly the encodings of values within the limit, keys in any order and coming
      again, and what it gives is their canonical form. */
  lemma DecodeLenient(data: seq<byte>, v: Value)
    ensures Decode(data, false) == Success(v)
       <==> exists u :: Writable(u) && Nest(u) <= 100 && data == Encode(u) && v == Canon(u)
  {
    if Decode(data, false) == Success(v) {
      var u := LenientWrittenBack(data, 0);
      assert Encode(u) + [] == Encode(u);
    }
    if u :| Writable(u) && Nest(u) <= MAX_DEPTH && data == Encode(u) && v == Canon(u) {
      LenientReadBack(u, 0, []);
      assert Encode(u) + [] == Encode(u);
    }
  }

  /** The canonical form of a dictionary is the one sorted dictionary that has under each key the canonical form of what
      came first under it. */
  lemma CanonExactly(entries: seq<Entry>, m: seq<Entry>)
    ensures Canon(Dict(entries)) == Dict(m) <==> SortedFrom(None, m) && FirstUnderEach(entries, m)
  {
    var c := PutAll([], entries);
    PutAllSorted([], entries);
    forall k ensures Lookup(c, k) == CanonOf(Lookup(entries, k)) {
      PutAllLookup([], entries, k);
    }
    if SortedFrom(None, m) && FirstUnderEach(entries, m) {
      forall k ensures Lookup(m, k) == Lookup(c, k) {
        assert Lookup(m, k) == CanonOf(Lookup(entries, k));
      }
      SortedUnique(None, m, c);
    }
  }

  ghost predicate FirstUnderEach(entries: seq<Entry>, m: seq<Entry>) {
    forall k :: Lookup(m, k) == CanonOf(Lookup(entries, k))
  }

  /** So entries in any order, with repeats, are decoded as a sorted dictionary with the same under each key. */
  lemma AnyOrderDecodes(entries: seq<Entry>) returns (m: seq<Entry>)
    requires WellFormedEntries(entries)
    ensures Decode(Encode(Dict(entries)), false)
         == if Nest(Dict(entries)) <= MAX_DEPTH then Success(Dict(m)) else Failure(TooDeep)
    ensures SortedFrom(None, m) && forall k :: Lookup(m, k) == Lookup(entries, k)
  {
    m := PutAll([], entries);
    CanonOfSimple(entries);
    PutAllSorted([], entries);
    forall k ensures Lookup(m, k) == Lookup(entries, k) {
      PutAllLookup([], entries, k);
    }
    LenientReadBack(Dict(entries), 0, []);
    assert Encode(Dict(entries)) + [] == Encode(Dict(entries));
  }
}
