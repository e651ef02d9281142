/** The decoder of src/bencode.rs: a position moved over a buffer, and a count of the lists and dictionaries around
    it. */
module BencodeDecoder {
  import opened Numbers
  import opened Bytes
  import opened Bencode

  class Decoder {
    const data: seq<byte>
    const strict: bool
    var pos: nat
    var depth: nat

    ghost predicate Valid()
      reads this
    {
      pos <= |data|
    }

    /** The bytes not yet taken. */
    function Rest(): seq<byte>
      requires Valid()
      reads this
    {
      data[pos..]
    }

    constructor (data: seq<byte>, strict: bool)
      ensures Valid() && this.data == data && this.strict == strict && pos == 0 && depth == 0 && Rest() == data
    {
      this.data, this.strict, this.pos, this.depth := data, strict, 0, 0;
    }

    /** Moves past one byte. */
    method Skip()
      requires Valid() && Rest() != []
      modifies this`pos
      ensures Valid() && pos == old(pos) + 1 && Rest() == old(Rest())[1..]
    {
      pos := pos + 1;
    }

    /** Moves past the digits, up to the terminator. */
    method ScanDigits(terminator: byte) returns (error: Option<DecodeError>)
      requires Valid() && !IsDigit(terminator)
      modifies this`pos
      ensures Valid() && pos == old(pos) + DigitRun(old(Rest()))
      ensures error ==
        if Rest() == [] then Some(UnexpectedEof)
        else if Rest()[0] != terminator then Some(InvalidDigit(Rest()[0]))
        else None
    {
      ghost var s, start := Rest(), pos;
      while true
        invariant start <= pos <= |data| && DigitRun(s) == pos - start + DigitRun(Rest())
        decreases |data| - pos
      {
        if pos == |data| {
          return Some(UnexpectedEof);
        }
        var b := data[pos];
        if b == terminator {
          return None;
        }
        if !IsDigit(b) {
          return Some(InvalidDigit(b));
        }
        Skip();
      }
    }

    method ParseSignedUntil(terminator: byte) returns (r: Result<int, DecodeError>)
      requires Valid() && !IsDigit(terminator)
      modifies this`pos
      ensures Valid() && r == ParseSigned(old(Rest()), terminator).ToResult()
      ensures Rest() == ParseSigned(old(Rest()), terminator).rest
    {
      if pos == |data| {
        return Failure(UnexpectedEof);
      }
      var negative := data[pos] == MINUS;
      if negative {
        Skip();
      }
      r := ParseDigitsUntil(negative, terminator);
    }

    method ParseDigitsUntil(negative: bool, terminator: byte) returns (r: Result<int, DecodeError>)
      requires Valid() && !IsDigit(terminator)
      modifies this`pos
      ensures Valid() && r == ParseDigits(negative, old(Rest()), terminator).ToResult()
      ensures Rest() == ParseDigits(negative, old(Rest()), terminator).rest
    {
      var start := pos;
      ghost var s := Rest();
      var error := ScanDigits(terminator);
      assert Rest() == s[DigitRun(s)..];
      if error.Some? {
        return Failure(error.value);
      }
      var digits := data[start..pos];
      assert digits == s[..DigitRun(s)];
      if digits == [] {
        return Failure(InvalidDigit(terminator));
      }
      if |digits| > 1 && digits[0] == ZERO_DIGIT {
        return Failure(LeadingZero);
      }
      if digits == [ZERO_DIGIT] && negative {
        return Failure(LeadingZero);
      }
      var i := Signed(negative, NatOf(digits));
      Skip();
      r := if I64_MIN <= i <= I64_MAX then Success(i) else Failure(InvalidDigit(terminator));
    }

    method DecodeInt() returns (r: Result<int, DecodeError>)
      requires Valid() && Rest() != [] && Rest()[0] == I
      modifies this`pos
      ensures Valid() && r == ParseSigned(old(Rest())[1..], E).ToResult()
      ensures Rest() == ParseSigned(old(Rest())[1..], E).rest
    {
      Skip();
      r := ParseSignedUntil(E);
    }

    method DecodeBytes() returns (r: Result<seq<byte>, DecodeError>)
      requires Valid()
      modifies this`pos
      ensures Valid() && r == ParseBytes(old(Rest())).ToResult() && Rest() == ParseBytes(old(Rest())).rest
    {
      var length := ParseSignedUntil(COLON);
      if length.Failure? {
        return Failure(length.error);
      }
      var n := length.value;
      if n < 0 {
        return Failure(InvalidDigit(COLON));
      }
      if pos + n > |data| {
        return Failure(LengthMismatch(n, |data| - pos));
      }
      var taken := data[pos..pos + n];
      assert taken == Rest()[..n];
      pos := pos + n;
      r := Success(taken);
    }

    /** On every exit, errors included, the nesting count is what it was. */
    method DecodeValue() returns (r: Result<Value, DecodeError>)
      requires Valid()
      modifies this
      ensures Valid() && depth == old(depth)
      ensures r == ParseValue(old(Rest()), depth, strict).ToResult()
      ensures Rest() == ParseValue(old(Rest()), depth, strict).rest
      decreases |data| - pos, 0
    {
      if pos == |data| {
        return Failure(UnexpectedEof);
      }
      var tag := data[pos];
      if tag == L || tag == D {
        if depth >= MAX_DEPTH {
          return Failure(TooDeep);
        }
        depth := depth + 1;
        if tag == L {
          Skip();
          var list := DecodeItems();
          r := if list.Success? then Success(List(list.value)) else Failure(list.error);
        } else {
          Skip();
          var dict := DecodeEntries();
          r := if dict.Success? then Success(Dict(dict.value)) else Failure(dict.error);
        }
        depth := depth - 1;
        return;
      }
      if tag == I {
        var i := DecodeInt();
        r := if i.Success? then Success(Int(i.value)) else Failure(i.error);
      } else if IsDigit(tag) {
        var b := DecodeBytes();
        r := if b.Success? then Success(ByteString(b.value)) else Failure(b.error);
      } else {
        r := Failure(InvalidTag(tag));
      }
    }

    /** The loop of `decode_list`, its tag taken. */
    method DecodeItems() returns (r: Result<seq<Value>, DecodeError>)
      requires Valid()
      modifies this
      ensures Valid() && depth == old(depth)
      ensures r == ParseItems(old(Rest()), depth, strict, []).ToResult()
      ensures Rest() == ParseItems(old(Rest()), depth, strict, []).rest
      decreases |data| - pos, 1
    {
      var items := [];
      while true
        invariant Valid() && old(pos) <= pos && depth == old(depth)
        invariant ParseItems(old(Rest()), depth, strict, []) == ParseItems(Rest(), depth, strict, items)
        decreases |data| - pos
      {
        if pos == |data| {
          return Failure(UnexpectedEof);
        }
        if data[pos] == E {
          Skip();
          return Success(items);
        }
        var item := DecodeValue();
        if item.Failure? {
          return Failure(item.error);
        }
        items := items + [item.value];
      }
    }

    /** The loop of `decode_dict`, its tag taken. */
    method DecodeEntries() returns (r: Result<seq<Entry>, DecodeError>)
      requires Valid()
      modifies this
      ensures Valid() && depth == old(depth)
      ensures r == ParseEntries(old(Rest()), depth, strict, None, []).ToResult()
      ensures Rest() == ParseEntries(old(Rest()), depth, strict, None, []).rest
      decreases |data| - pos, 1
    {
      var m: seq<Entry> := [];
      var last: Option<seq<byte>> := None;
      while true
        invariant Valid() && old(pos) <= pos && depth == old(depth)
        invariant ParseEntries(old(Rest()), depth, strict, None, []) == ParseEntries(Rest(), depth, strict, last, m)
        decreases |data| - pos
      {
        if pos == |data| {
          return Failure(UnexpectedEof);
        }
        if data[pos] == E {
          Skip();
          return Success(m);
        }
        var key := DecodeBytes();
        if key.Failure? {
          return Failure(key.error);
        }
        if strict {
          if last.Some? && !LexLess(last.value, key.value) {
            return Failure(UnsortedOrDuplicateKey);
          }
        }
        var value := DecodeValue();
        if value.Failure? {
          return Failure(value.error);
        }
        if strict {
          last := Some(key.value);
        }
        m := PutNew(m, key.value, value.value);
      }
    }

    method DecodeTopLevel() returns (r: Result<Value, DecodeError>)
      requires Valid() && pos == 0 && depth == 0
      modifies this
      ensures r == Decode(data, strict)
    {
      var value := DecodeValue();
      if value.Failure? {
        return value;
      }
      if pos != |data| {
        return Failure(TrailingGarbage(pos));
      }
      return value;
    }

    method DecodeValueWithSpan() returns (r: Result<(Value, (nat, nat)), DecodeError>)
      requires Valid()
      modifies this
      ensures Valid() && depth == old(depth) && Rest() == ParseValue(old(Rest()), depth, strict).rest
      ensures match ParseValue(old(Rest()), depth, strict)
        case Ok(v, rest) => r == Success((v, (old(pos), pos)))
        case Err(e, _) => r == Failure(e)
    {
      var start := pos;
      var value := DecodeValue();
      if value.Failure? {
        return Failure(value.error);
      }
      return Success((value.value, (start, pos)));
    }
  }
}
