/** Bencode (BEP 3, src/bencode.rs): the values, their canonical encoding, and what the decoder makes of any bytes.
    The decoder is given here as functions of the bytes that are left; the class that moves a position over a buffer
    is in BencodeDecoder. */
module Bencode {
  import opened Numbers
  import opened Bytes

  /** The deepest nesting of lists and dictionaries that is followed. */
  const MAX_DEPTH: nat := 100

  const I64_MIN: int := -0x8000_0000_0000_0000
  const I64_MAX: int := 0x7FFF_FFFF_FFFF_FFFF

  const MINUS: byte := 45
  const ZERO_DIGIT: byte := 48
  const COLON: byte := 58
  const D: byte := 100
  const E: byte := 101
  const I: byte := 105
  const L: byte := 108

  /** A dictionary is a sorted map; it is held as its entries in key order. */
  datatype Value =
    | Int(i: int)
    | ByteString(b: seq<byte>)
    | List(items: seq<Value>)
    | Dict(entries: seq<Entry>)

  datatype Entry = Entry(key: seq<byte>, value: Value)

  datatype DecodeError =
    | TooDeep
    | UnexpectedEof
    | InvalidDigit(digit: byte)
    | InvalidTag(tag: byte)
    | LeadingZero
    | LengthMismatch(expected: nat, remaining: nat)
    | TrailingGarbage(pos: nat)
    | UnsortedOrDuplicateKey

  datatype Result<+T, +X> = Success(value: T) | Failure(error: X)

  /** What a decoding step comes to, and the bytes it leaves: those after what it took, or those where it stopped. */
  datatype Outcome<+T> = Ok(value: T, rest: seq<byte>) | Err(error: DecodeError, rest: seq<byte>) {
    function ToResult(): Result<T, DecodeError> {
      match this
      case Ok(v, _) => Success(v)
      case Err(e, _) => Failure(e)
    }
  }

  // ---- sorted maps -----------------------------------------------------------

  /** `Vec<u8>`'s order. */
  predicate LexLess(a: seq<byte>, b: seq<byte>) {
    b != [] && (a == [] || a[0] < b[0] || (a[0] == b[0] && LexLess(a[1..], b[1..])))
  }

  /** The keys strictly increase, from above `last` if there is one. */
  predicate SortedFrom(last: Option<seq<byte>>, entries: seq<Entry>)
    decreases |entries|
  {
    || entries == []
    || ((last.None? || LexLess(last.value, entries[0].key)) && SortedFrom(Some(entries[0].key), entries[1..]))
  }

  /** `map.entry(key).or_insert(value)`: the value that is there first stays. */
  function PutNew(m: seq<Entry>, key: seq<byte>, value: Value): seq<Entry> {
    if m == [] then [Entry(key, value)]
    else if m[0].key == key then m
    else if LexLess(key, m[0].key) then [Entry(key, value)] + m
    else [m[0]] + PutNew(m[1..], key, value)
  }

  function Lookup(m: seq<Entry>, key: seq<byte>): Option<Value> {
    if m == [] then None
    else if m[0].key == key then Some(m[0].value)
    else Lookup(m[1..], key)
  }

  // ---- numbers ---------------------------------------------------------------

  predicate IsDigit(b: byte) {
    48 <= b <= 57
  }

  predicate AllDigits(s: seq<byte>) {
    forall i :: 0 <= i < |s| ==> IsDigit(s[i])
  }

  /** `to_string` of a natural number. */
  function Digits(n: nat): (s: seq<byte>)
    ensures |s| > 0 && AllDigits(s)
  {
    if n < 10 then [48 + n] else Digits(n / 10) + [48 + n % 10]
  }

  function NatOf(s: seq<byte>): nat
    requires AllDigits(s)
  {
    if s == [] then 0 else 10 * NatOf(s[..|s| - 1]) + (s[|s| - 1] - 48)
  }

  /** `i64::to_string`. */
  function SignedDigits(i: int): seq<byte> {
    if i < 0 then [MINUS] + Digits(-i) else Digits(i)
  }

  function Signed(negative: bool, n: int): int {
    if negative then -n else n
  }

  /** How many digits `s` begins with. */
  function DigitRun(s: seq<byte>): (n: nat)
    ensures n <= |s| && AllDigits(s[..n])
    ensures n < |s| ==> !IsDigit(s[n])
  {
    if s == [] || !IsDigit(s[0]) then 0
    else
      var n := DigitRun(s[1..]);
      assert s[..n + 1] == [s[0]] + s[1..][..n];
      n + 1
  }

  // ---- encode ----------------------------------------------------------------

  function EncodeBytes(b: seq<byte>): seq<byte> {
    Digits(|b|) + [COLON] + b
  }

  function Encode(v: Value): seq<byte>
    decreases v, 1
  {
    match v
    case Int(i) => [I] + SignedDigits(i) + [E]
    case ByteString(b) => EncodeBytes(b)
    case List(items) => [L] + EncodeItems(items) + [E]
    case Dict(entries) => [D] + EncodeEntries(entries) + [E]
  }

  function EncodeItems(items: seq<Value>): seq<byte>
    decreases items, 0
  {
    if items == [] then [] else Encode(items[0]) + EncodeItems(items[1..])
  }

  function EncodeEntries(entries: seq<Entry>): seq<byte>
    decreases entries, 0
  {
    if entries == [] then [] else EncodeBytes(entries[0].key) + Encode(entries[0].value) + EncodeEntries(entries[1..])
  }

  /** The values the Rust type can hold: 64-bit integers, lengths a vector can have, dictionaries with sorted keys. */
  predicate WellFormed(v: Value)
    decreases v, 1
  {
    match v
    case Int(i) => I64_MIN <= i <= I64_MAX
    case ByteString(b) => |b| <= I64_MAX
    case List(items) => WellFormedItems(items)
    case Dict(entries) => SortedFrom(None, entries) && WellFormedEntries(entries)
  }

  predicate WellFormedItems(items: seq<Value>)
    decreases items, 0
  {
    items == [] || (WellFormed(items[0]) && WellFormedItems(items[1..]))
  }

  predicate WellFormedEntries(entries: seq<Entry>)
    decreases entries, 0
  {
    entries == [] || (|entries[0].key| <= I64_MAX && WellFormed(entries[0].value) && WellFormedEntries(entries[1..]))
  }

  /** How deep lists and dictionaries nest in a value. */
  function Nest(v: Value): nat
    decreases v, 1
  {
    match v
    case Int(_) => 0
    case ByteString(_) => 0
    case List(items) => 1 + NestItems(items)
    case Dict(entries) => 1 + NestEntries(entries)
  }

  function NestItems(items: seq<Value>): nat
    decreases items, 0
  {
    if items == [] then 0 else Max(Nest(items[0]), NestItems(items[1..]))
  }

  function NestEntries(entries: seq<Entry>): nat
    decreases entries, 0
  {
    if entries == [] then 0 else Max(Nest(entries[0].value), NestEntries(entries[1..]))
  }

  // ---- decode ----------------------------------------------------------------

  /** Optionally signed digits up to a terminator, which is taken too. */
  function ParseSigned(s: seq<byte>, terminator: byte): (r: Outcome<int>)
    requires !IsDigit(terminator)
    ensures |r.rest| <= |s| && (r.Ok? ==> |r.rest| < |s|)
  {
    if s == [] then Err(UnexpectedEof, s)
    else ParseDigits(s[0] == MINUS, if s[0] == MINUS then s[1..] else s, terminator)
  }

  function ParseDigits(negative: bool, s: seq<byte>, terminator: byte): (r: Outcome<int>)
    requires !IsDigit(terminator)
    ensures |r.rest| <= |s| && (r.Ok? ==> |r.rest| < |s|)
  {
    var n := DigitRun(s);
    if n == |s| then Err(UnexpectedEof, [])
    else if s[n] != terminator then Err(InvalidDigit(s[n]), s[n..])
    else if n == 0 then Err(InvalidDigit(terminator), s)
    else if (n > 1 || negative) && s[0] == ZERO_DIGIT then Err(LeadingZero, s[n..])
    else
      var i := Signed(negative, NatOf(s[..n]));
      if I64_MIN <= i <= I64_MAX then Ok(i, s[n + 1..]) else Err(InvalidDigit(terminator), s[n + 1..])
  }

  function ParseBytes(s: seq<byte>): (r: Outcome<seq<byte>>)
    ensures |r.rest| <= |s| && (r.Ok? ==> |r.rest| < |s|)
  {
    match ParseSigned(s, COLON)
    case Err(e, rest) => Err(e, rest)
    case Ok(n, rest) =>
      if n < 0 then Err(InvalidDigit(COLON), rest)
      else if n > |rest| then Err(LengthMismatch(n, |rest|), rest)
      else Ok(rest[..n], rest[n..])
  }

  /** One value, at a nesting of `depth`. */
  function ParseValue(s: seq<byte>, depth: nat, strict: bool): (r: Outcome<Value>)
    ensures |r.rest| <= |s| && (r.Ok? ==> |r.rest| < |s|)
    decreases |s|, 0
  {
    if s == [] then Err(UnexpectedEof, s)
    else if s[0] == L then
      if depth >= MAX_DEPTH then Err(TooDeep, s)
      else
        match ParseItems(s[1..], depth + 1, strict, [])
        case Ok(items, rest) => Ok(List(items), rest)
        case Err(e, rest) => Err(e, rest)
    else if s[0] == D then
      if depth >= MAX_DEPTH then Err(TooDeep, s)
      else
        match ParseEntries(s[1..], depth + 1, strict, None, [])
        case Ok(entries, rest) => Ok(Dict(entries), rest)
        case Err(e, rest) => Err(e, rest)
    else if s[0] == I then
      match ParseSigned(s[1..], E)
      case Ok(i, rest) => Ok(Int(i), rest)
      case Err(e, rest) => Err(e, rest)
    else if IsDigit(s[0]) then
      match ParseBytes(s)
      case Ok(b, rest) => Ok(ByteString(b), rest)
      case Err(e, rest) => Err(e, rest)
    else Err(InvalidTag(s[0]), s)
  }

  /** The rest of a list, `items` being those read so far. */
  function ParseItems(s: seq<byte>, depth: nat, strict: bool, items: seq<Value>): (r: Outcome<seq<Value>>)
    ensures |r.rest| <= |s| && (r.Ok? ==> |r.rest| < |s|)
    decreases |s|, 1
  {
    if s == [] then Err(UnexpectedEof, s)
    else if s[0] == E then Ok(items, s[1..])
    else
      match ParseValue(s, depth, strict)
      case Err(e, rest) => Err(e, rest)
      case Ok(v, rest) => ParseItems(rest, depth, strict, items + [v])
  }

  /** The rest of a dictionary, `m` being what it holds so far and `last` the last key read (kept in strict mode). */
  function ParseEntries(s: seq<byte>, depth: nat, strict: bool, last: Option<seq<byte>>,
                        m: seq<Entry>): (r: Outcome<seq<Entry>>)
    ensures |r.rest| <= |s| && (r.Ok? ==> |r.rest| < |s|)
    decreases |s|, 1
  {
    if s == [] then Err(UnexpectedEof, s)
    else if s[0] == E then Ok(m, s[1..])
    else
      match ParseBytes(s)
      case Err(e, rest) => Err(e, rest)
      case Ok(key, rest) =>
        if strict && last.Some? && !LexLess(last.value, key) then Err(UnsortedOrDuplicateKey, rest)
        else
          match ParseValue(rest, depth, strict)
          case Err(e, rest') => Err(e, rest')
          case Ok(v, rest') => ParseEntries(rest', depth, strict, if strict then Some(key) else last, PutNew(m, key, v))
  }

  /** `decode` (strict) and `decode_lenient`: exactly one value. */
  function Decode(data: seq<byte>, strict: bool): Result<Value, DecodeError> {
    match ParseValue(data, 0, strict)
    case Err(e, _) => Failure(e)
    case Ok(v, rest) => if rest != [] then Failure(TrailingGarbage(|data| - |rest|)) else Success(v)
  }
}
