/** What the decoder and the encoder promise each other. */
module BencodeProofs {
  import opened Numbers
  import opened Bytes
  import opened Bencode

  // ---- keys ------------------------------------------------------------------

  lemma {:induction false} LexTotal(a: seq<byte>, b: seq<byte>)
    ensures LexLess(a, b) || a == b || LexLess(b, a)
    ensures !(LexLess(a, b) && LexLess(b, a)) && (a == b ==> !LexLess(a, b))
  {
    if a != [] && b != [] && a[0] == b[0] {
      LexTotal(a[1..], b[1..]);
      assert a == [a[0]] + a[1..] && b == [b[0]] + b[1..];
    }
  }

  lemma {:induction false} LexTransitive(a: seq<byte>, b: seq<byte>, c: seq<byte>)
    requires LexLess(a, b) && LexLess(b, c)
    ensures LexLess(a, c)
  {
    if a != [] && a[0] == b[0] == c[0] { LexTransitive(a[1..], b[1..], c[1..]); }
  }

  /** The order is that of a dictionary of bytes: at the first place where two differ the smaller byte is before, and a
      prefix is before what it is a prefix of. */
  lemma {:induction false} LexExactly(a: seq<byte>, b: seq<byte>)
    ensures LexLess(a, b) <==> exists n: nat :: DiffersAt(a, b, n)
  {
    if a != [] && b != [] && a[0] == b[0] {
      LexExactly(a[1..], b[1..]);
      assert a == [a[0]] + a[1..] && b == [b[0]] + b[1..];
      if n: nat :| DiffersAt(a, b, n) {
        assert n > 0 && a[..n][1..] == a[1..][..n - 1] && b[..n][1..] == b[1..][..n - 1];
        assert DiffersAt(a[1..], b[1..], n - 1);
      }
      if n: nat :| DiffersAt(a[1..], b[1..], n) {
        assert a[..n + 1] == [a[0]] + a[1..][..n] && b[..n + 1] == [b[0]] + b[1..][..n];
        assert DiffersAt(a, b, n + 1);
      }
    } else {
      forall n: nat | DiffersAt(a, b, n) ensures n == 0 {
        FirstDiffers(a, b, n);
      }
      assert LexLess(a, b) <==> DiffersAt(a, b, 0);
    }
  }

  lemma FirstDiffers(a: seq<byte>, b: seq<byte>, n: nat)
    requires DiffersAt(a, b, n)
    ensures n == 0 || (a != [] && b != [] && a[0] == b[0])
  {
    if n > 0 {
      assert a[0] == a[..n][0] && b[0] == b[..n][0];
    }
  }

  predicate DiffersAt(a: seq<byte>, b: seq<byte>, n: nat) {
    n <= |a| && n < |b| && a[..n] == b[..n] && (n == |a| || a[n] < b[n])
  }

  /** Every key of a sorted map from above `last` is above it. */
  lemma {:induction false} SortedAbove(last: seq<byte>, m: seq<Entry>, i: nat)
    requires SortedFrom(Some(last), m) && i < |m|
    ensures LexLess(last, m[i].key)
    decreases |m|
  {
    if i > 0 {
      SortedAbove(m[0].key, m[1..], i - 1);
      LexTransitive(last, m[0].key, m[i].key);
    }
  }

  lemma {:induction false} SortedAppend(last: Option<seq<byte>>, m: seq<Entry>, n: seq<Entry>)
    requires SortedFrom(last, m + n)
    ensures SortedFrom(last, m)
    ensures SortedFrom(if m == [] then last else Some(m[|m| - 1].key), n)
    decreases |m|
  {
    if m == [] {
      assert m + n == n;
    } else {
      assert (m + n)[1..] == m[1..] + n;
      SortedAppend(Some(m[0].key), m[1..], n);
    }
  }

  /** A key above all the others goes at the end. */
  lemma {:induction false} PutNewLast(last: Option<seq<byte>>, m: seq<Entry>, key: seq<byte>, value: Value)
    requires SortedFrom(last, m + [Entry(key, value)])
    ensures PutNew(m, key, value) == m + [Entry(key, value)]
    decreases |m|
  {
    if m != [] {
      var all := m + [Entry(key, value)];
      assert all[1..] == m[1..] + [Entry(key, value)];
      SortedAbove(m[0].key, all[1..], |m| - 1);
      LexTotal(m[0].key, key);
      PutNewLast(Some(m[0].key), m[1..], key, value);
      assert all == [m[0]] + all[1..];
    }
  }

  lemma {:induction false} PutNewKeeps(last: Option<seq<byte>>, m: seq<Entry>, key: seq<byte>, value: Value)
    requires SortedFrom(last, m) && (last.None? || LexLess(last.value, key))
    ensures SortedFrom(last, PutNew(m, key, value))
    decreases |m|
  {
    if m != [] && m[0].key != key && !LexLess(key, m[0].key) {
      LexTotal(key, m[0].key);
      PutNewKeeps(Some(m[0].key), m[1..], key, value);
      var p := PutNew(m, key, value);
      assert p[0] == m[0] && p[1..] == PutNew(m[1..], key, value);
    }
  }

  lemma {:induction false} PutNewWellFormed(m: seq<Entry>, key: seq<byte>, value: Value)
    requires WellFormedEntries(m) && |key| <= I64_MAX && WellFormed(value)
    ensures WellFormedEntries(PutNew(m, key, value))
    ensures NestEntries(PutNew(m, key, value)) <= Max(NestEntries(m), Nest(value))
    decreases |m|
  {
    if m == [] {
    } else if m[0].key == key {
    } else if LexLess(key, m[0].key) {
      var p := [Entry(key, value)] + m;
      assert p[1..] == m;
    } else {
      PutNewWellFormed(m[1..], key, value);
      var p := [m[0]] + PutNew(m[1..], key, value);
      assert p[1..] == PutNew(m[1..], key, value);
    }
  }

  lemma {:induction false} LookupPut(last: Option<seq<byte>>, m: seq<Entry>, key: seq<byte>, value: Value, k: seq<byte>)
    requires SortedFrom(last, m)
    ensures Lookup(PutNew(m, key, value), k) == if k == key && Lookup(m, key).None? then Some(value) else Lookup(m, k)
    decreases |m|
  {
    if m == [] {
      assert Lookup([Entry(key, value)][1..], k) == None;
    } else if m[0].key == key {
    } else if LexLess(key, m[0].key) {
      TailOf(Entry(key, value), m);
      NotBelow(key, m);
    } else {
      LookupPut(Some(m[0].key), m[1..], key, value, k);
      TailOf(m[0], PutNew(m[1..], key, value));
    }
  }

  /** A key below the first is nowhere in a sorted map. */
  lemma NotBelow(key: seq<byte>, m: seq<Entry>)
    requires m != [] && SortedFrom(Some(m[0].key), m[1..]) && LexLess(key, m[0].key)
    ensures Lookup(m, key) == None
  {
    LexTotal(key, m[0].key);
    forall i | 0 <= i < |m| ensures m[i].key != key {
      if i > 0 {
        SortedAbove(m[0].key, m[1..], i - 1);
        LexTransitive(key, m[0].key, m[i].key);
      }
      LexTotal(key, m[i].key);
    }
    AbsentKey(m, key);
  }

  lemma {:induction false} AbsentKey(m: seq<Entry>, key: seq<byte>)
    requires forall i :: 0 <= i < |m| ==> m[i].key != key
    ensures Lookup(m, key) == None
    decreases |m|
  {
    if m != [] { AbsentKey(m[1..], key); }
  }

  // ---- numbers ---------------------------------------------------------------

  lemma {:induction false} NatOfDigits(n: nat)
    ensures NatOf(Digits(n)) == n
    ensures n > 0 ==> Digits(n)[0] != ZERO_DIGIT
    ensures n == 0 ==> Digits(n) == [ZERO_DIGIT]
  {
    if n >= 10 {
      NatOfDigits(n / 10);
      var d := Digits(n);
      assert d[..|d| - 1] == Digits(n / 10);
    } else {
      assert Digits(n)[..0] == [];
    }
  }

  lemma {:induction false} DigitsOfNat(s: seq<byte>)
    requires |s| > 0 && AllDigits(s) && (|s| > 1 ==> s[0] != ZERO_DIGIT)
    ensures Digits(NatOf(s)) == s
    ensures s[0] != ZERO_DIGIT ==> NatOf(s) > 0
    decreases |s|
  {
    var front, last := s[..|s| - 1], s[|s| - 1];
    assert s == front + [last];
    if front == [] {
      assert NatOf(front) == 0;
    } else {
      DigitsOfNat(front);
      assert front[0] == s[0];
      assert NatOf(s) / 10 == NatOf(front);
    }
  }

  lemma {:induction false} DigitRunOf(s: seq<byte>, rest: seq<byte>)
    requires AllDigits(s) && rest != [] && !IsDigit(rest[0])
    ensures DigitRun(s + rest) == |s|
    decreases |s|
  {
    if s == [] {
      assert s + rest == rest;
    } else {
      AppendTail(s, rest);
      DigitRunOf(s[1..], rest);
    }
  }

  lemma AppendTail(s: seq<byte>, rest: seq<byte>)
    requires s != []
    ensures (s + rest)[0] == s[0] && (s + rest)[1..] == s[1..] + rest
  {
  }

  lemma DigitsReadBack(negative: bool, n: nat, terminator: byte, rest: seq<byte>)
    requires !IsDigit(terminator) && I64_MIN <= Signed(negative, n) <= I64_MAX && (negative ==> n > 0)
    ensures ParseDigits(negative, Digits(n) + ([terminator] + rest), terminator) == Ok(Signed(negative, n), rest)
  {
    var d, tail := Digits(n), [terminator] + rest;
    NatOfDigits(n);
    DigitRunOf(d, tail);
    TailOf(terminator, rest);
    var s := d + tail;
    assert s[..|d|] == d && s[|d|..] == tail;
    assert s[|d| + 1..] == tail[1..];
  }

  /** A number written out is read back, whatever follows its terminator. */
  lemma SignedReadBack(i: int, terminator: byte, rest: seq<byte>)
    requires I64_MIN <= i <= I64_MAX && !IsDigit(terminator)
    ensures ParseSigned(SignedDigits(i) + [terminator] + rest, terminator) == Ok(i, rest)
  {
    var n: nat := if i < 0 then -i else i;
    var s := Digits(n) + ([terminator] + rest);
    DigitsReadBack(i < 0, n, terminator, rest);
    Assoc3(SignedDigits(i), [terminator], rest);
    if i < 0 {
      Assoc3([MINUS], Digits(n), [terminator] + rest);
      TailOf(MINUS, s);
    } else {
      assert s[0] == Digits(n)[0];
    }
  }

  lemma DigitsWrittenBack(negative: bool, s: seq<byte>, terminator: byte)
    requires !IsDigit(terminator) && ParseDigits(negative, s, terminator).Ok?
    ensures var r := ParseDigits(negative, s, terminator);
      && I64_MIN <= r.value <= I64_MAX && (r.value < 0 <==> negative)
      && s == Digits(if negative then -r.value else r.value) + [terminator] + r.rest
  {
    var n := DigitRun(s);
    DigitsOfNat(s[..n]);
    assert s == s[..n] + [s[n]] + s[n + 1..];
  }

  lemma Prefixed(x: byte, s: seq<byte>, a: seq<byte>, b: seq<byte>, c: seq<byte>)
    requires s != [] && s[0] == x && s[1..] == a + b + c
    ensures s == [x] + a + b + c
  {
    assert s == [x] + s[1..];
    Assoc4([x], a, b, c);
  }

  /** A number that was read is written back as it was. */
  lemma SignedWrittenBack(s: seq<byte>, terminator: byte)
    requires !IsDigit(terminator) && ParseSigned(s, terminator).Ok?
    ensures var r := ParseSigned(s, terminator);
      I64_MIN <= r.value <= I64_MAX && s == SignedDigits(r.value) + [terminator] + r.rest
  {
    var negative := s[0] == MINUS;
    var t := if negative then s[1..] else s;
    DigitsWrittenBack(negative, t, terminator);
    var r := ParseDigits(negative, t, terminator);
    if negative { Prefixed(MINUS, s, Digits(-r.value), [terminator], r.rest); }
  }

  lemma BytesReadBack(b: seq<byte>, rest: seq<byte>)
    requires |b| <= I64_MAX
    ensures ParseBytes(EncodeBytes(b) + rest) == Ok(b, rest)
  {
    SignedReadBack(|b|, COLON, b + rest);
    assert EncodeBytes(b) + rest == SignedDigits(|b|) + [COLON] + (b + rest);
    assert (b + rest)[..|b|] == b && (b + rest)[|b|..] == rest;
  }

  lemma BytesWrittenBack(s: seq<byte>)
    requires ParseBytes(s).Ok?
    ensures var r := ParseBytes(s); |r.value| <= I64_MAX && s == EncodeBytes(r.value) + r.rest
  {
    SignedWrittenBack(s, COLON);
    var Ok(n, after) := ParseSigned(s, COLON);
    SplitAfter(SignedDigits(n) + [COLON], after, n);
  }

  lemma SplitAfter(front: seq<byte>, back: seq<byte>, n: nat)
    requires n <= |back|
    ensures front + back == front + back[..n] + back[n..]
  {
  }

  // ---- what was read is written back -----------------------------------------

  /** A nesting of `n` more levels is within the limit at `depth`. */
  predicate Fits(depth: nat, n: nat) {
    n > 0 ==> depth + n <= MAX_DEPTH
  }

  predicate IsEncoding(s: seq<byte>, depth: nat, v: Value, rest: seq<byte>) {
    WellFormed(v) && Fits(depth, Nest(v)) && s == Encode(v) + rest
  }

  predicate AreItems(s: seq<byte>, depth: nat, items: seq<Value>, rest: seq<byte>) {
    WellFormedItems(items) && Fits(depth, NestItems(items)) && s == EncodeItems(items) + [E] + rest
  }

  predicate AreEntries(s: seq<byte>, depth: nat, entries: seq<Entry>, rest: seq<byte>) {
    WellFormedEntries(entries) && Fits(depth, NestEntries(entries)) && s == EncodeEntries(entries) + [E] + rest
  }

  lemma ListEncoding(s: seq<byte>, depth: nat, items: seq<Value>, rest: seq<byte>)
    requires s != [] && s[0] == L && depth < MAX_DEPTH && AreItems(s[1..], depth + 1, items, rest)
    ensures IsEncoding(s, depth, List(items), rest)
  {
    Prefixed(L, s, EncodeItems(items), [E], rest);
  }

  lemma DictEncoding(s: seq<byte>, depth: nat, entries: seq<Entry>, rest: seq<byte>)
    requires s != [] && s[0] == D && depth < MAX_DEPTH && SortedFrom(None, entries)
    requires AreEntries(s[1..], depth + 1, entries, rest)
    ensures IsEncoding(s, depth, Dict(entries), rest)
  {
    Prefixed(D, s, EncodeEntries(entries), [E], rest);
  }

  lemma IntEncoding(s: seq<byte>, depth: nat, i: int, rest: seq<byte>)
    requires s != [] && s[0] == I && I64_MIN <= i <= I64_MAX && s[1..] == SignedDigits(i) + [E] + rest
    ensures IsEncoding(s, depth, Int(i), rest)
  {
    Prefixed(I, s, SignedDigits(i), [E], rest);
  }

  /** Strict decoding takes the canonical encoding of the value it gives and nothing else. */
  lemma {:induction false} StrictWrittenBack(s: seq<byte>, depth: nat)
    requires ParseValue(s, depth, true).Ok?
    ensures IsEncoding(s, depth, ParseValue(s, depth, true).value, ParseValue(s, depth, true).rest)
    decreases |s|, 0
  {
    if s[0] == L {
      var r := ParseItems(s[1..], depth + 1, true, []);
      StrictItemsWrittenBack(s[1..], depth + 1, []);
      assert r.value[0..] == r.value;
      ListEncoding(s, depth, r.value, r.rest);
    } else if s[0] == D {
      var r := ParseEntries(s[1..], depth + 1, true, None, []);
      StrictEntriesWrittenBack(s[1..], depth + 1, None, []);
      assert r.value[0..] == r.value;
      DictEncoding(s, depth, r.value, r.rest);
    } else if s[0] == I {
      var r := ParseSigned(s[1..], E);
      SignedWrittenBack(s[1..], E);
      IntEncoding(s, depth, r.value, r.rest);
    } else {
      BytesWrittenBack(s);
    }
  }

  lemma TailFrom<T>(before: seq<T>, x: T, all: seq<T>)
    requires before + [x] <= all
    ensures before <= all && all[|before|..] == [x] + all[|before| + 1..]
  {
    assert all[|before|] == (before + [x])[|before|];
  }

  lemma {:induction false} StrictItemsWrittenBack(s: seq<byte>, depth: nat, before: seq<Value>)
    requires ParseItems(s, depth, true, before).Ok?
    ensures before <= ParseItems(s, depth, true, before).value
    ensures AreItems(s, depth, ParseItems(s, depth, true, before).value[|before|..],
                     ParseItems(s, depth, true, before).rest)
    decreases |s|, 1
  {
    if s[0] == E {
      assert s == [] + [E] + s[1..];
    } else {
      var v, mid := ParseValue(s, depth, true).value, ParseValue(s, depth, true).rest;
      var r := ParseItems(mid, depth, true, before + [v]);
      StrictWrittenBack(s, depth);
      StrictItemsWrittenBack(mid, depth, before + [v]);
      TailFrom(before, v, r.value);
      ItemsCons(s, depth, v, mid, r.value[|before| + 1..], r.rest);
    }
  }

  lemma ItemsCons(s: seq<byte>, depth: nat, v: Value, mid: seq<byte>, items: seq<Value>, rest: seq<byte>)
    requires IsEncoding(s, depth, v, mid) && AreItems(mid, depth, items, rest)
    ensures AreItems(s, depth, [v] + items, rest)
  {
    var all := [v] + items;
    assert all[0] == v && all[1..] == items;
  }

  /** The state of a strict dictionary loop: the entries so far are sorted and `last` is the key of the last one. */
  predicate StrictLoop(last: Option<seq<byte>>, m: seq<Entry>) {
    SortedFrom(None, m) && last == if m == [] then None else Some(m[|m| - 1].key)
  }

  lemma {:induction false} SortedJoin(last: Option<seq<byte>>, m: seq<Entry>, n: seq<Entry>)
    requires SortedFrom(last, m) && SortedFrom(if m == [] then last else Some(m[|m| - 1].key), n)
    ensures SortedFrom(last, m + n)
    decreases |m|
  {
    if m == [] {
      assert m + n == n;
    } else {
      assert (m + n)[1..] == m[1..] + n;
      SortedJoin(Some(m[0].key), m[1..], n);
    }
  }

  lemma StrictStep(last: Option<seq<byte>>, m: seq<Entry>, key: seq<byte>, v: Value)
    requires StrictLoop(last, m) && (last.None? || LexLess(last.value, key))
    ensures PutNew(m, key, v) == m + [Entry(key, v)] && StrictLoop(Some(key), m + [Entry(key, v)])
  {
    SortedJoin(None, m, [Entry(key, v)]);
    PutNewLast(None, m, key, v);
  }

  lemma {:induction false} StrictEntriesWrittenBack(s: seq<byte>, depth: nat, last: Option<seq<byte>>, m: seq<Entry>)
    requires StrictLoop(last, m) && ParseEntries(s, depth, true, last, m).Ok?
    ensures m <= ParseEntries(s, depth, true, last, m).value
    ensures SortedFrom(None, ParseEntries(s, depth, true, last, m).value)
    ensures AreEntries(s, depth, ParseEntries(s, depth, true, last, m).value[|m|..],
                       ParseEntries(s, depth, true, last, m).rest)
    decreases |s|, 1
  {
    if s[0] == E {
      assert s == [] + [E] + s[1..];
    } else {
      var key, after := ParseBytes(s).value, ParseBytes(s).rest;
      var v, mid := ParseValue(after, depth, true).value, ParseValue(after, depth, true).rest;
      var r := ParseEntries(mid, depth, true, Some(key), m + [Entry(key, v)]);
      BytesWrittenBack(s);
      StrictWrittenBack(after, depth);
      StrictStep(last, m, key, v);
      StrictEntriesWrittenBack(mid, depth, Some(key), m + [Entry(key, v)]);
      TailFrom(m, Entry(key, v), r.value);
      EntriesCons(s, depth, key, after, v, mid, r.value[|m| + 1..], r.rest);
    }
  }

  lemma EntriesCons(s: seq<byte>, depth: nat, key: seq<byte>, after: seq<byte>, v: Value, mid: seq<byte>,
                    entries: seq<Entry>, rest: seq<byte>)
    requires |key| <= I64_MAX && s == EncodeBytes(key) + after
    requires IsEncoding(after, depth, v, mid) && AreEntries(mid, depth, entries, rest)
    ensures AreEntries(s, depth, [Entry(key, v)] + entries, rest)
  {
    var all := [Entry(key, v)] + entries;
    TailOf(Entry(key, v), entries);
    EntriesSplit(all, rest);
  }

  /** The encoding of some entries: the first key, the first value, the rest. */
  lemma EntriesSplit(entries: seq<Entry>, rest: seq<byte>)
    requires entries != []
    ensures EncodeEntries(entries) + [E] + rest
         == EncodeBytes(entries[0].key) + (Encode(entries[0].value) + (EncodeEntries(entries[1..]) + [E] + rest))
  {
    var k, v, tail := EncodeBytes(entries[0].key), Encode(entries[0].value), EncodeEntries(entries[1..]);
    Assoc3(k + v + tail, [E], rest);
    Assoc3(k + v, tail, [E] + rest);
    Assoc3(tail, [E], rest);
    Assoc3(k, v, tail + [E] + rest);
  }

  // ---- what was written is read back -----------------------------------------

  lemma EncodingBegins(v: Value)
    ensures Encode(v) != [] && Encode(v)[0] != E
    ensures v.List? ==> Encode(v)[0] == L
    ensures v.Dict? ==> Encode(v)[0] == D
    ensures v.Int? ==> Encode(v)[0] == I
    ensures v.ByteString? ==> IsDigit(Encode(v)[0])
  {
    if v.ByteString? { assert Encode(v)[0] == Digits(|v.b|)[0]; }
  }

  /** What reading back an encoding should come to at some depth: the value, or the nesting limit. */
  predicate ReadsAs<T(==)>(r: Outcome<T>, fits: bool, value: T, rest: seq<byte>) {
    if fits then r == Ok(value, rest) else r.Err? && r.error == TooDeep
  }

  /** In either mode, and whatever follows, the encoding of a value is read back as that value if it nests within the
      limit, and is refused as too deep if it does not. */
  lemma {:induction false} ReadBack(v: Value, depth: nat, strict: bool, rest: seq<byte>)
    requires WellFormed(v)
    ensures ReadsAs(ParseValue(Encode(v) + rest, depth, strict), Fits(depth, Nest(v)), v, rest)
    decreases v, 1
  {
    EncodingTail(v, rest);
    match v
    case Int(i) =>
      SignedReadBack(i, E, rest);
    case ByteString(b) =>
      BytesReadBack(b, rest);
    case List(items) =>
      ItemsReadBack(items, depth + 1, strict, [], rest);
    case Dict(entries) =>
      EntriesReadBack(entries, depth + 1, strict, None, [], rest);
  }

  /** An encoding with something after it: its tag, and what is behind the tag. */
  lemma EncodingTail(v: Value, rest: seq<byte>)
    ensures var s := Encode(v) + rest;
      && s != [] && s[0] == Encode(v)[0]
      && match v
         case Int(i) => s[0] == I && s[1..] == SignedDigits(i) + [E] + rest
         case ByteString(b) => IsDigit(s[0]) && s == EncodeBytes(b) + rest
         case List(items) => s[0] == L && s[1..] == EncodeItems(items) + [E] + rest && [] + items == items
         case Dict(entries) => s[0] == D && s[1..] == EncodeEntries(entries) + [E] + rest && [] + entries == entries
  {
    EncodingBegins(v);
    match v
    case Int(i) =>
      Assoc4([I], SignedDigits(i), [E], rest);
      TailOf(I, SignedDigits(i) + [E] + rest);
    case ByteString(b) =>
    case List(items) =>
      Assoc4([L], EncodeItems(items), [E], rest);
      TailOf(L, EncodeItems(items) + [E] + rest);
    case Dict(entries) =>
      Assoc4([D], EncodeEntries(entries), [E], rest);
      TailOf(D, EncodeEntries(entries) + [E] + rest);
  }

  lemma EntriesFront(entries: seq<Entry>, rest: seq<byte>)
    requires entries != []
    ensures var s, mid := EncodeEntries(entries) + [E] + rest, EncodeEntries(entries[1..]) + [E] + rest;
      && s == EncodeBytes(entries[0].key) + (Encode(entries[0].value) + mid)
      && s != [] && IsDigit(s[0])
  {
    EntriesSplit(entries, rest);
    assert EncodeBytes(entries[0].key)[0] == Digits(|entries[0].key|)[0];
  }

  lemma {:induction false} ItemsReadBack(items: seq<Value>, depth: nat, strict: bool, before: seq<Value>,
          rest: seq<byte>)
    requires WellFormedItems(items)
    ensures ReadsAs(ParseItems(EncodeItems(items) + [E] + rest, depth, strict, before), Fits(depth, NestItems(items)),
                    before + items, rest)
    decreases items, 0
  {
    var s := EncodeItems(items) + [E] + rest;
    if items == [] {
      assert s == [E] + rest && before + items == before;
    } else {
      var mid := EncodeItems(items[1..]) + [E] + rest;
      ItemsFront(items, rest);
      ReadBack(items[0], depth, strict, mid);
      if Fits(depth, Nest(items[0])) {
        NextItem(before, items);
        ItemsReadBack(items[1..], depth, strict, before + [items[0]], rest);
      }
    }
  }

  lemma ItemsFront(items: seq<Value>, rest: seq<byte>)
    requires items != []
    ensures var s, mid := EncodeItems(items) + [E] + rest, EncodeItems(items[1..]) + [E] + rest;
      s == Encode(items[0]) + mid && s != [] && s[0] != E
  {
    Assoc4(Encode(items[0]), EncodeItems(items[1..]), [E], rest);
    EncodingBegins(items[0]);
  }

  lemma NextItem(before: seq<Value>, items: seq<Value>)
    requires items != []
    ensures before + items == before + [items[0]] + items[1..]
  {
  }

  /** The state of either dictionary loop, over entries that arrive sorted. */
  predicate LoopState(strict: bool, last: Option<seq<byte>>, m: seq<Entry>) {
    last == if strict && m != [] then Some(m[|m| - 1].key) else None
  }

  lemma PutNext(m: seq<Entry>, entries: seq<Entry>)
    requires entries != [] && SortedFrom(None, m + entries)
    ensures PutNew(m, entries[0].key, entries[0].value) == m + [entries[0]]
    ensures m != [] ==> LexLess(m[|m| - 1].key, entries[0].key)
    ensures m + entries == m + [entries[0]] + entries[1..]
  {
    assert m + entries == (m + [entries[0]]) + entries[1..];
    SortedAppend(None, m, entries);
    SortedAppend(None, m + [entries[0]], entries[1..]);
    PutNewLast(None, m, entries[0].key, entries[0].value);
  }

  lemma {:induction false} EntriesReadBack(entries: seq<Entry>, depth: nat, strict: bool, last: Option<seq<byte>>,
          m: seq<Entry>, rest: seq<byte>)
    requires WellFormedEntries(entries) && SortedFrom(None, m + entries) && LoopState(strict, last, m)
    ensures ReadsAs(ParseEntries(EncodeEntries(entries) + [E] + rest, depth, strict, last, m),
                    Fits(depth, NestEntries(entries)), m + entries, rest)
    decreases entries, 0
  {
    var s := EncodeEntries(entries) + [E] + rest;
    if entries == [] {
      assert s == [E] + rest && m + entries == m;
    } else {
      var key, v := entries[0].key, entries[0].value;
      var mid := EncodeEntries(entries[1..]) + [E] + rest;
      EntriesFront(entries, rest);
      BytesReadBack(key, Encode(v) + mid);
      ReadBack(v, depth, strict, mid);
      PutNext(m, entries);
      if Fits(depth, Nest(v)) {
        EntriesReadBack(entries[1..], depth, strict, if strict then Some(key) else None, m + [entries[0]], rest);
      }
    }
  }

  // ---- what either mode reads is a value that nests within the limit ----------

  lemma {:induction false} ReadIsWellFormed(s: seq<byte>, depth: nat, strict: bool)
    requires ParseValue(s, depth, strict).Ok?
    ensures WellFormed(ParseValue(s, depth, strict).value) && Fits(depth, Nest(ParseValue(s, depth, strict).value))
    decreases |s|, 1
  {
    if s[0] == L {
      ListIsWellFormed(s, depth, strict);
    } else if s[0] == D {
      DictIsWellFormed(s, depth, strict);
    } else {
      SimpleIsWellFormed(s, depth, strict);
    }
  }

  lemma {:induction false} ListIsWellFormed(s: seq<byte>, depth: nat, strict: bool)
    requires s != [] && s[0] == L && ParseValue(s, depth, strict).Ok?
    ensures WellFormed(ParseValue(s, depth, strict).value) && Fits(depth, Nest(ParseValue(s, depth, strict).value))
    decreases |s|, 0
  {
    ItemsAreWellFormed(s[1..], depth + 1, strict, []);
  }

  lemma {:induction false} DictIsWellFormed(s: seq<byte>, depth: nat, strict: bool)
    requires s != [] && s[0] == D && ParseValue(s, depth, strict).Ok?
    ensures WellFormed(ParseValue(s, depth, strict).value) && Fits(depth, Nest(ParseValue(s, depth, strict).value))
    decreases |s|, 0
  {
    DictFrom(s, depth, strict);
    EntriesAreWellFormed(s[1..], depth + 1, strict, None, []);
    DictNests(ParseEntries(s[1..], depth + 1, strict, None, []).value, depth);
  }

  lemma DictFrom(s: seq<byte>, depth: nat, strict: bool)
    requires s != [] && s[0] == D && ParseValue(s, depth, strict).Ok?
    ensures depth < MAX_DEPTH && ParseEntries(s[1..], depth + 1, strict, None, []).Ok?
    ensures ParseValue(s, depth, strict).value == Dict(ParseEntries(s[1..], depth + 1, strict, None, []).value)
  {
  }

  lemma DictNests(entries: seq<Entry>, depth: nat)
    requires depth < MAX_DEPTH && SortedFrom(None, entries) && WellFormedEntries(entries)
    requires Fits(depth + 1, NestEntries(entries))
    ensures WellFormed(Dict(entries)) && Fits(depth, Nest(Dict(entries)))
  {
  }

  lemma SimpleIsWellFormed(s: seq<byte>, depth: nat, strict: bool)
    requires s != [] && s[0] != L && s[0] != D && ParseValue(s, depth, strict).Ok?
    ensures WellFormed(ParseValue(s, depth, strict).value) && Nest(ParseValue(s, depth, strict).value) == 0
  {
    if s[0] == I {
      SignedWrittenBack(s[1..], E);
    } else {
      BytesWrittenBack(s);
    }
  }

  lemma {:induction false} ItemsSnoc(items: seq<Value>, v: Value)
    requires WellFormedItems(items) && WellFormed(v)
    ensures WellFormedItems(items + [v]) && NestItems(items + [v]) == Max(NestItems(items), Nest(v))
    decreases |items|
  {
    if items == [] {
      assert items + [v] == [v];
    } else {
      assert (items + [v])[1..] == items[1..] + [v];
      ItemsSnoc(items[1..], v);
    }
  }

  lemma {:induction false} ItemsAreWellFormed(s: seq<byte>, depth: nat, strict: bool, before: seq<Value>)
    requires WellFormedItems(before) && Fits(depth, NestItems(before)) && ParseItems(s, depth, strict, before).Ok?
    ensures WellFormedItems(ParseItems(s, depth, strict, before).value)
    ensures Fits(depth, NestItems(ParseItems(s, depth, strict, before).value))
    decreases |s|, 2
  {
    if s[0] != E {
      ReadIsWellFormed(s, depth, strict);
      var r := ParseValue(s, depth, strict);
      ItemsSnoc(before, r.value);
      ItemsAreWellFormed(r.rest, depth, strict, before + [r.value]);
    }
  }

  lemma {:induction false} EntriesAreWellFormed(s: seq<byte>, depth: nat, strict: bool, last: Option<seq<byte>>,
          m: seq<Entry>)
    requires SortedFrom(None, m) && WellFormedEntries(m) && Fits(depth, NestEntries(m))
    requires ParseEntries(s, depth, strict, last, m).Ok?
    ensures SortedFrom(None, ParseEntries(s, depth, strict, last, m).value)
    ensures WellFormedEntries(ParseEntries(s, depth, strict, last, m).value)
    ensures Fits(depth, NestEntries(ParseEntries(s, depth, strict, last, m).value))
    decreases |s|, 2
  {
    if s[0] != E {
      BytesWrittenBack(s);
      var k := ParseBytes(s);
      ReadIsWellFormed(k.rest, depth, strict);
      var r := ParseValue(k.rest, depth, strict);
      PutNewKeeps(None, m, k.value, r.value);
      PutNewWellFormed(m, k.value, r.value);
      EntriesAreWellFormed(r.rest, depth, strict, if strict then Some(k.value) else last, PutNew(m, k.value, r.value));
    }
  }

  // ---- a value is read from its own bytes and no others -----------------------

  /** The bytes taken from `s` when `rest` is left. */
  function Taken(s: seq<byte>, rest: seq<byte>): seq<byte>
    requires |rest| <= |s|
  {
    s[..|s| - |rest|]
  }

  /** `r` came of the front of `s`, and `r'` is the same with `t` after it instead. */
  predicate Moved<T(==)>(s: seq<byte>, r: Outcome<T>, r': Outcome<T>, t: seq<byte>) {
    r.Ok? && |r.rest| <= |s| && s == Taken(s, r.rest) + r.rest && r' == Ok(r.value, t)
  }

  lemma BytesMoved(s: seq<byte>, t: seq<byte>)
    requires ParseBytes(s).Ok?
    ensures Moved(s, ParseBytes(s), ParseBytes(Taken(s, ParseBytes(s).rest) + t), t)
  {
    BytesWrittenBack(s);
    var r := ParseBytes(s);
    assert Taken(s, r.rest) == EncodeBytes(r.value);
    BytesReadBack(r.value, t);
  }

  lemma IntMoved(s: seq<byte>, depth: nat, strict: bool, t: seq<byte>)
    requires s != [] && s[0] == I && ParseValue(s, depth, strict).Ok?
    ensures Moved(s, ParseValue(s, depth, strict),
                  ParseValue(Taken(s, ParseValue(s, depth, strict).rest) + t, depth, strict), t)
  {
    SignedWrittenBack(s[1..], E);
    var r := ParseSigned(s[1..], E);
    IntEncoding(s, depth, r.value, r.rest);
    assert Taken(s, r.rest) == Encode(Int(r.value));
    ReadBack(Int(r.value), depth, strict, t);
  }

  /** After one tag byte. */
  lemma TagMoved(s: seq<byte>, rest: seq<byte>, t: seq<byte>)
    requires s != [] && |rest| < |s| && s[1..] == Taken(s[1..], rest) + rest
    ensures s == Taken(s, rest) + rest
    ensures Taken(s, rest) + t != [] && (Taken(s, rest) + t)[0] == s[0]
    ensures (Taken(s, rest) + t)[1..] == Taken(s[1..], rest) + t
  {
    var tag, taken := s[0], Taken(s[1..], rest);
    assert Taken(s, rest) == [tag] + taken;
    assert s == [tag] + s[1..];
    Assoc3([tag], taken, rest);
    Assoc3([tag], taken, t);
    TailOf(tag, taken + t);
  }

  lemma ListOf(s: seq<byte>, tail: seq<byte>, depth: nat, strict: bool)
    requires s != [] && s[0] == L && s[1..] == tail && depth < MAX_DEPTH && ParseItems(tail, depth + 1, strict, []).Ok?
    ensures var r := ParseItems(tail, depth + 1, strict, []); ParseValue(s, depth, strict) == Ok(List(r.value), r.rest)
  {
  }

  lemma DictOf(s: seq<byte>, tail: seq<byte>, depth: nat, strict: bool)
    requires s != [] && s[0] == D && s[1..] == tail && depth < MAX_DEPTH
    requires ParseEntries(tail, depth + 1, strict, None, []).Ok?
    ensures var r := ParseEntries(tail, depth + 1, strict, None, []);
      ParseValue(s, depth, strict) == Ok(Dict(r.value), r.rest)
  {
  }

  lemma {:induction false} ListMoved(s: seq<byte>, depth: nat, strict: bool, t: seq<byte>)
    requires s != [] && s[0] == L && ParseValue(s, depth, strict).Ok?
    ensures Moved(s, ParseValue(s, depth, strict),
                  ParseValue(Taken(s, ParseValue(s, depth, strict).rest) + t, depth, strict), t)
    decreases |s|, 0
  {
    ItemsMoved(s[1..], depth + 1, strict, [], t);
    var rest := ParseItems(s[1..], depth + 1, strict, []).rest;
    TagMoved(s, rest, t);
    ListOf(s, s[1..], depth, strict);
    ListOf(Taken(s, rest) + t, Taken(s[1..], rest) + t, depth, strict);
  }

  lemma {:induction false} DictMoved(s: seq<byte>, depth: nat, strict: bool, t: seq<byte>)
    requires s != [] && s[0] == D && ParseValue(s, depth, strict).Ok?
    ensures Moved(s, ParseValue(s, depth, strict),
                  ParseValue(Taken(s, ParseValue(s, depth, strict).rest) + t, depth, strict), t)
    decreases |s|, 0
  {
    EntriesMoved(s[1..], depth + 1, strict, None, [], t);
    var rest := ParseEntries(s[1..], depth + 1, strict, None, []).rest;
    TagMoved(s, rest, t);
    DictOf(s, s[1..], depth, strict);
    DictOf(Taken(s, rest) + t, Taken(s[1..], rest) + t, depth, strict);
  }

  /** Two steps one after the other. */
  lemma TakenTwice(s: seq<byte>, mid: seq<byte>, rest: seq<byte>, t: seq<byte>)
    requires |rest| <= |mid| <= |s| && s == Taken(s, mid) + mid && mid == Taken(mid, rest) + rest
    ensures s == Taken(s, rest) + rest
    ensures Taken(s, rest) + t == Taken(s, mid) + (Taken(mid, rest) + t)
  {
    var a, b := Taken(s, mid), Taken(mid, rest);
    assert s == a + b + rest;
    assert Taken(s, rest) == a + b;
    assert a + b + t == a + (b + t);
  }

  /** A successful read depends only on the bytes it took: anything may follow them. */
  lemma {:induction false} ValueMoved(s: seq<byte>, depth: nat, strict: bool, t: seq<byte>)
    requires ParseValue(s, depth, strict).Ok?
    ensures Moved(s, ParseValue(s, depth, strict),
                  ParseValue(Taken(s, ParseValue(s, depth, strict).rest) + t, depth, strict), t)
    decreases |s|, 1
  {
    if s[0] == L {
      ListMoved(s, depth, strict, t);
    } else if s[0] == D {
      DictMoved(s, depth, strict, t);
    } else if s[0] == I {
      IntMoved(s, depth, strict, t);
    } else {
      StringMoved(s, depth, strict, t);
    }
  }

  lemma StringMoved(s: seq<byte>, depth: nat, strict: bool, t: seq<byte>)
    requires s != [] && s[0] != L && s[0] != D && s[0] != I && ParseValue(s, depth, strict).Ok?
    ensures Moved(s, ParseValue(s, depth, strict),
                  ParseValue(Taken(s, ParseValue(s, depth, strict).rest) + t, depth, strict), t)
  {
    BytesMoved(s, t);
    FrontStays(s, ParseBytes(s).rest, t);
  }

  lemma FrontStays(s: seq<byte>, rest: seq<byte>, t: seq<byte>)
    requires |rest| < |s|
    ensures Taken(s, rest) + t != [] && (Taken(s, rest) + t)[0] == s[0]
  {
  }

  lemma {:induction false} ItemsMoved(s: seq<byte>, depth: nat, strict: bool, before: seq<Value>, t: seq<byte>)
    requires ParseItems(s, depth, strict, before).Ok?
    ensures var r := ParseItems(s, depth, strict, before);
      Moved(s, r, ParseItems(Taken(s, r.rest) + t, depth, strict, before), t)
    decreases |s|, 2
  {
    var r := ParseItems(s, depth, strict, before);
    if s[0] == E {
      assert Taken(s, r.rest) == [E];
      assert ([E] + t)[1..] == t;
      assert s == [E] + r.rest;
    } else {
      var v := ParseValue(s, depth, strict);
      ItemsMoved(v.rest, depth, strict, before + [v.value], t);
      ValueMoved(s, depth, strict, Taken(v.rest, r.rest) + t);
      TakenTwice(s, v.rest, r.rest, t);
      FrontStays(s, r.rest, t);
    }
  }

  lemma {:induction false} EntriesMoved(s: seq<byte>, depth: nat, strict: bool, last: Option<seq<byte>>,
          m: seq<Entry>, t: seq<byte>)
    requires ParseEntries(s, depth, strict, last, m).Ok?
    ensures var r := ParseEntries(s, depth, strict, last, m);
      Moved(s, r, ParseEntries(Taken(s, r.rest) + t, depth, strict, last, m), t)
    decreases |s|, 2
  {
    var r := ParseEntries(s, depth, strict, last, m);
    if s[0] == E {
      assert Taken(s, r.rest) == [E];
      assert ([E] + t)[1..] == t;
      assert s == [E] + r.rest;
    } else {
      var k := ParseBytes(s);
      var v := ParseValue(k.rest, depth, strict);
      EntriesMoved(v.rest, depth, strict, if strict then Some(k.value) else last, PutNew(m, k.value, v.value), t);
      ValueMoved(k.rest, depth, strict, Taken(v.rest, r.rest) + t);
      TakenTwice(k.rest, v.rest, r.rest, t);
      BytesMoved(s, Taken(k.rest, r.rest) + t);
      TakenTwice(s, k.rest, r.rest, t);
      FrontStays(s, r.rest, t);
    }
  }

  // ---- decode and encode -------------------------------------------------------

  /** What strict `decode` accepts is exactly the canonical encodings of the values that nest within the limit. */
  lemma DecodeStrict(data: seq<byte>, v: Value)
    ensures Decode(data, true) == Success(v) <==> data == Encode(v) && WellFormed(v) && Nest(v) <= 100
  {
    if Decode(data, true) == Success(v) {
      StrictWrittenBack(data, 0);
      assert data == Encode(v) + [] == Encode(v);
    } else if data == Encode(v) && WellFormed(v) && Nest(v) <= MAX_DEPTH {
      DecodeEncoded(v, true);
    }
  }

  /** An encoding decodes to its value, or is too deep: nothing else can become of it. */
  lemma DecodeEncoded(v: Value, strict: bool)
    requires WellFormed(v)
    ensures Decode(Encode(v), strict) == if Nest(v) <= 100 then Success(v) else Failure(TooDeep)
  {
    ReadBack(v, 0, strict, []);
    assert Encode(v) + [] == Encode(v);
  }

  /** Lenient decoding gives what strict decoding gives wherever that gives anything, and what it gives of anything else
      is canonical from then on. */
  lemma LenientExtendsStrict(data: seq<byte>)
    ensures Decode(data, true).Success? ==> Decode(data, false) == Decode(data, true)
    ensures Decode(data, false).Success? ==> Decode(Encode(Decode(data, false).value), true) == Decode(data, false)
  {
    if Decode(data, true).Success? {
      var v := Decode(data, true).value;
      DecodeStrict(data, v);
      DecodeEncoded(v, false);
    }
    if Decode(data, false).Success? {
      ReadIsWellFormed(data, 0, false);
      DecodeEncoded(Decode(data, false).value, true);
    }
  }
}
