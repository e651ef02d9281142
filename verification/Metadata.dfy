/** The metadata exchange of BEP 9 (src/metadata.rs, and its side of src/serving.rs): the messages, the server that cuts
    the info dictionary up, and the assembler that puts it together. */
module Metadata {
  import opened Numbers
  import opened Bytes
  import opened Bencode
  import opened BencodeDecoder
  import opened BencodeProofs
  import LenientBencode
  import Torrents

  const PIECE_SIZE: nat := 16384

  /** The largest info dictionary that is accepted. */
  const MAX_SIZE: int := 0x100_0000

  const U32: nat := 0x1_0000_0000

  type u32 = n: int | 0 <= n < U32

  datatype Message =
    | Request(piece: u32)
    | Data(piece: u32, totalSize: u32, data: seq<byte>)
    | Reject(piece: u32)

  datatype Field = MsgType | Piece | TotalSize

  datatype MetadataError =
    | BadBencode(error: DecodeError)
    | NotADict
    | MissingField(field: Field)
    | UnknownMsgType(i: int)
    | PieceOutOfRange(index: nat, count: nat)
    | PieceSizeMismatch(index: nat, expected: nat, got: nat)
    | IncompleteAssembly
    | SizeNotAcceptable(claimed: int)

  // ---- messages --------------------------------------------------------------------

  /** The keys "msg_type", "piece" and "total_size". */
  function Key(field: Field): seq<byte> {
    match field
    case MsgType => [109, 115, 103, 95, 116, 121, 112, 101]
    case Piece => [112, 105, 101, 99, 101]
    case TotalSize => [116, 111, 116, 97, 108, 95, 115, 105, 122, 101]
  }

  function IntEntry(field: Field, i: int): Entry {
    Entry(Key(field), Int(i))
  }

  function HeaderOf(m: Message): Value {
    match m
    case Request(piece) => Dict([IntEntry(MsgType, 0), IntEntry(Piece, piece)])
    case Data(piece, totalSize,
              _) => Dict([IntEntry(MsgType, 1), IntEntry(Piece, piece), IntEntry(TotalSize, totalSize)])
    case Reject(piece) => Dict([IntEntry(MsgType, 2), IntEntry(Piece, piece)])
  }

  /** The bytes after the header: those of the chunk itself, as they are. */
  function RawOf(m: Message): seq<byte> {
    if m.Data? then m.data else []
  }

  function EncodeMessage(m: Message): seq<byte> {
    Encode(HeaderOf(m)) + RawOf(m)
  }

  function IntField(entries: seq<Entry>, field: Field): Option<int> {
    match Lookup(entries, Key(field))
    case Some(Int(i)) => Some(i)
    case _ => None
  }

  /** `as u32` of an `i64`. */
  function Truncated(i: int): u32 {
    i % U32
  }

  /** The message a header and the bytes after it make. */
  function Interpret(header: Value, raw: seq<byte>): Result<Message, MetadataError> {
    if !header.Dict? then Failure(NotADict)
    else
      match (IntField(header.entries, MsgType), IntField(header.entries, Piece))
      case (None, _) => Failure(MissingField(MsgType))
      case (Some(_), None) => Failure(MissingField(Piece))
      case (Some(msgType), Some(piece)) =>
        if msgType == 0 then Success(Request(Truncated(piece)))
        else if msgType == 2 then Success(Reject(Truncated(piece)))
        else if msgType != 1 then Failure(UnknownMsgType(msgType))
        else
          match IntField(header.entries, TotalSize)
          case None => Failure(MissingField(TotalSize))
          case Some(size) => Success(Data(Truncated(piece), Truncated(size), raw))
  }

  function DecodeMessage(payload: seq<byte>): Result<Message, MetadataError> {
    match ParseValue(payload, 0, false)
    case Err(e, _) => Failure(BadBencode(e))
    case Ok(header, rest) => Interpret(header, rest)
  }

  /** `MetadataMessage::decode`, by a lenient decoder that says where the header ends. */
  method ReadMessage(payload: seq<byte>) returns (r: Result<Message, MetadataError>)
    ensures r == DecodeMessage(payload)
  {
    var decoder := new Decoder(payload, false);
    assert payload[0..] == payload;
    var spanned := decoder.DecodeValueWithSpan();
    if spanned.Failure? {
      return Failure(BadBencode(spanned.error));
    }
    var (header, (start, end)) := spanned.value;
    r := Interpret(header, payload[end..]);
  }

  predicate Flat(last: Option<seq<byte>>, entries: seq<Entry>) {
    SortedFrom(last, entries) && WellFormedEntries(entries) && NestEntries(entries) == 0
  }

  lemma FlatCons(last: Option<seq<byte>>, field: Field, i: int, rest: seq<Entry>)
    requires Flat(Some(Key(field)), rest) && I64_MIN <= i <= I64_MAX && (last.None? || LexLess(last.value, Key(field)))
    ensures Flat(last, [IntEntry(field, i)] + rest)
    ensures forall f: Field ::
      IntField([IntEntry(field, i)] + rest, f) == if f == field then Some(i) else IntField(rest, f)
  {
    TailOf(IntEntry(field, i), rest);
    KeysDiffer();
  }

  lemma KeysDiffer()
    ensures |Key(MsgType)| == 8 && |Key(Piece)| == 5 && |Key(TotalSize)| == 10
    ensures LexLess(Key(MsgType), Key(Piece)) && LexLess(Key(Piece), Key(TotalSize))
  {
  }

  lemma HeaderWellFormed(m: Message)
    ensures WellFormed(HeaderOf(m)) && Nest(HeaderOf(m)) == 1
    ensures IntField(HeaderOf(m).entries, MsgType) == Some(if m.Request? then 0 else if m.Data? then 1 else 2)
    ensures IntField(HeaderOf(m).entries, Piece) == Some(m.piece)
    ensures m.Data? ==> IntField(HeaderOf(m).entries, TotalSize) == Some(m.totalSize)
  {
    KeysDiffer();
    var msgType := if m.Request? then 0 else if m.Data? then 1 else 2;
    var end := if m.Data? then [IntEntry(TotalSize, m.totalSize)] else [];
    if m.Data? {
      FlatCons(Some(Key(Piece)), TotalSize, m.totalSize, []);
      assert [IntEntry(TotalSize, m.totalSize)] + [] == end;
    }
    FlatCons(Some(Key(MsgType)), Piece, m.piece, end);
    FlatCons(None, MsgType, msgType, [IntEntry(Piece, m.piece)] + end);
    assert HeaderOf(m).entries == [IntEntry(MsgType, msgType)] + ([IntEntry(Piece, m.piece)] + end);
  }

  /** A message is read back whatever the raw bytes look like; after a request or a refusal anything may follow. */
  lemma MessageReadBack(m: Message, more: seq<byte>)
    ensures m.Data? ==> DecodeMessage(EncodeMessage(m)) == Success(m)
    ensures !m.Data? ==> DecodeMessage(EncodeMessage(m) + more) == Success(m)
  {
    HeaderWellFormed(m);
    if m.Data? {
      ReadBack(HeaderOf(m), 0, false, m.data);
    } else {
      ReadBack(HeaderOf(m), 0, false, more);
      assert Encode(HeaderOf(m)) + [] == Encode(HeaderOf(m));
    }
  }

  /** The fields of a header may come in any order, and other keys among them. */
  lemma AnyOrderReads(m: Message, entries: seq<Entry>)
    requires WellFormedEntries(entries) && Nest(Dict(entries)) <= MAX_DEPTH
    requires forall f: Field :: Lookup(entries, Key(f)) == Lookup(HeaderOf(m).entries, Key(f))
    ensures DecodeMessage(Encode(Dict(entries)) + RawOf(m)) == Success(m)
  {
    var header := LenientBencode.PutAll([], entries);
    LenientBencode.CanonOfSimple(entries);
    LenientBencode.LenientReadBack(Dict(entries), 0, RawOf(m));
    forall f: Field ensures IntField(header, f) == IntField(HeaderOf(m).entries, f) {
      LenientBencode.PutAllLookup([], entries, Key(f));
      assert Lookup(entries, Key(f)) == Lookup(HeaderOf(m).entries, Key(f));
    }
    HeaderWellFormed(m);
    ReadBack(HeaderOf(m), 0, false, RawOf(m));
    MessageReadBack(m, []);
    assert EncodeMessage(m) + [] == EncodeMessage(m);
  }

  lemma KeysAre()
    ensures Key(MsgType) == Torrents.Ascii("msg_type") && Key(Piece) == Torrents.Ascii("piece")
    ensures Key(TotalSize) == Torrents.Ascii("total_size")
  {
  }

  /** The messages of BEP 9: a request is of type 0, a chunk of type 1, with the size of the whole, and a refusal of
      type 2. */
  lemma MessagesAre(piece: u32, size: u32, data: seq<byte>)
    ensures HeaderOf(Request(piece))
         == Dict([Entry(Torrents.Ascii("msg_type"), Int(0)), Entry(Torrents.Ascii("piece"), Int(piece))])
    ensures HeaderOf(Reject(piece))
         == Dict([Entry(Torrents.Ascii("msg_type"), Int(2)), Entry(Torrents.Ascii("piece"), Int(piece))])
    ensures HeaderOf(Data(piece, size, data))
         == Dict([Entry(Torrents.Ascii("msg_type"), Int(1)), Entry(Torrents.Ascii("piece"), Int(piece)),
                  Entry(Torrents.Ascii("total_size"), Int(size))])
    ensures EncodeMessage(Data(piece, size, data)) == Encode(HeaderOf(Data(piece, size, data))) + data
  {
    KeysAre();
  }

  // ---- the server ------------------------------------------------------------------

  function RequestLimit(metadata: seq<byte>): nat {
    2 * CeilDiv(|metadata|, PIECE_SIZE) + 8
  }

  /** The answer to a request: the chunk, or a refusal past the end. */
  function AnswerTo(metadata: seq<byte>, piece: u32): Message {
    var start := piece * PIECE_SIZE;
    if start < |metadata| then
      Data(piece, Truncated(|metadata|), metadata[start..Min(start + PIECE_SIZE, |metadata|)])
    else Reject(piece)
  }

  /** A request within the dictionary is answered with its bytes from 16384 times the index on, as many as there are up
      to 16384, and with the dictionary's own length; one past the end is refused. */
  lemma AnswerIs(metadata: seq<byte>, piece: u32)
    requires |metadata| < U32
    ensures 16384 * piece >= |metadata| ==> AnswerTo(metadata, piece) == Reject(piece)
    ensures 16384 * piece < |metadata| ==>
      && AnswerTo(metadata, piece).Data? && AnswerTo(metadata, piece).piece == piece
      && AnswerTo(metadata, piece).totalSize == |metadata|
      && var chunk := AnswerTo(metadata, piece).data;
      && 0 < |chunk| <= 16384 && (|chunk| < 16384 ==> 16384 * piece + |chunk| == |metadata|)
      && 16384 * piece + |chunk| <= |metadata| && chunk == metadata[16384 * piece..16384 * piece + |chunk|]
  {
  }

  datatype Reply = Ignored | TooMany | Sent(payload: seq<byte>)

  /** What a payload comes to when `asked` requests have come before it. */
  function ReplyTo(metadata: seq<byte>, asked: nat, payload: seq<byte>): Reply {
    match DecodeMessage(payload)
    case Success(Request(piece)) =>
      if asked + 1 > RequestLimit(metadata) then TooMany else Sent(EncodeMessage(AnswerTo(metadata, piece)))
    case _ => Ignored
  }

  predicate IsRequest(payload: seq<byte>) {
    DecodeMessage(payload).Success? && DecodeMessage(payload).value.Request?
  }

  /** The side of `Serving` that answers metadata requests. */
  class Responder {
    const metadata: Option<seq<byte>>
    var replyId: Option<nat>
    var metadataRequests: nat

    constructor (metadata: Option<seq<byte>>, replyId: Option<nat>)
      ensures this.metadata == metadata && this.replyId == replyId && metadataRequests == 0
    {
      this.metadata := metadata;
      this.replyId := replyId;
      metadataRequests := 0;
    }

    method Handle(payload: seq<byte>) returns (reply: Reply)
      modifies this`metadataRequests
      ensures reply
           == if metadata.None? || replyId.None? then Ignored
              else ReplyTo(metadata.value, old(metadataRequests), payload)
      ensures metadataRequests == old(metadataRequests)
                                + if metadata.Some? && replyId.Some? && IsRequest(payload) then 1 else 0
    {
      if metadata.None? || replyId.None? {
        return Ignored;
      }
      var message := ReadMessage(payload);
      if message.Failure? || !message.value.Request? {
        return Ignored;
      }
      metadataRequests := metadataRequests + 1;
      if metadataRequests > 2 * CeilDiv(|metadata.value|, PIECE_SIZE) + 8 {
        return TooMany;
      }
      reply := Sent(EncodeMessage(AnswerTo(metadata.value, message.value.piece)));
    }
  }

  // ---- the assembler ---------------------------------------------------------------

  type Parts = seq<Option<seq<byte>>>

  function PieceCount(totalSize: nat): nat {
    Max(CeilDiv(totalSize, PIECE_SIZE), 1)
  }

  function ExpectedLen(totalSize: nat, index: nat): nat {
    if index == PieceCount(totalSize) - 1 && totalSize % PIECE_SIZE != 0 then totalSize % PIECE_SIZE else PIECE_SIZE
  }

  function Empty(totalSize: nat): Parts {
    seq(PieceCount(totalSize), i => None)
  }

  function AddPart(totalSize: nat, parts: Parts, index: nat, data: seq<byte>): Result<Parts, MetadataError>
    requires |parts| == PieceCount(totalSize)
  {
    if index >= |parts| then Failure(PieceOutOfRange(index, |parts|))
    else if |data| != ExpectedLen(totalSize,
                                  index) then Failure(PieceSizeMismatch(index, ExpectedLen(totalSize, index), |data|))
    else Success(parts[index := Some(data)])
  }

  predicate Complete(parts: Parts) {
    forall i :: 0 <= i < |parts| ==> parts[i].Some?
  }

  /** The parts one after another, if they are all there. */
  function Assembled(parts: Parts): Result<seq<byte>, MetadataError> {
    if parts == [] then Success([])
    else
      match (Assembled(parts[..|parts| - 1]), parts[|parts| - 1])
      case (Success(front), Some(last)) => Success(front + last)
      case _ => Failure(IncompleteAssembly)
  }

  /** They can be put together exactly when none is missing. */
  lemma {:induction false} CompleteAssembles(parts: Parts)
    ensures Assembled(parts).Success? <==> Complete(parts)
    ensures !Complete(parts) ==> Assembled(parts) == Failure(IncompleteAssembly)
    decreases |parts|
  {
    if parts != [] {
      var front, last := parts[..|parts| - 1], parts[|parts| - 1];
      CompleteAssembles(front);
      assert Complete(parts) <==> Complete(front) && last.Some? by {
        assert forall i :: 0 <= i < |front| ==> front[i] == parts[i];
      }
    }
  }

  class MetadataAssembler {
    const totalSize: nat
    const numPieces: nat
    var pieces: Parts

    ghost predicate Valid()
      reads this
    {
      numPieces == PieceCount(totalSize) == |pieces|
    }

    constructor (totalSize: nat)
      ensures Valid() && this.totalSize == totalSize && pieces == Empty(totalSize)
    {
      this.totalSize := totalSize;
      numPieces := Max(CeilDiv(totalSize, PIECE_SIZE), 1);
      pieces := seq(Max(CeilDiv(totalSize, PIECE_SIZE), 1), i => None);
    }

    /** An assembler for a size a peer claims, if that is acceptable. */
    static method ForClaimedSize(claimed: int) returns (r: Result<MetadataAssembler, MetadataError>)
      ensures !(1 <= claimed <= MAX_SIZE) ==> r == Failure(SizeNotAcceptable(claimed))
      ensures 1 <= claimed <= MAX_SIZE ==>
        && r.Success? && fresh(r.value) && r.value.Valid()
        && r.value.totalSize == claimed && r.value.pieces == Empty(claimed)
    {
      if !(1 <= claimed <= MAX_SIZE) {
        return Failure(SizeNotAcceptable(claimed));
      }
      var assembler := new MetadataAssembler(claimed);
      return Success(assembler);
    }

    method AddPiece(index: nat, data: seq<byte>) returns (r: Result<(), MetadataError>)
      requires Valid()
      modifies this`pieces
      ensures Valid()
      ensures match AddPart(totalSize, old(pieces), index, data)
        case Success(parts) => r == Success(()) && pieces == parts
        case Failure(e) => r == Failure(e) && pieces == old(pieces)
    {
      if index >= numPieces {
        return Failure(PieceOutOfRange(index, numPieces));
      }
      var expected := PIECE_SIZE;
      if index == numPieces - 1 {
        var rem := totalSize % PIECE_SIZE;
        expected := if rem == 0 then PIECE_SIZE else rem;
      }
      if |data| != expected {
        return Failure(PieceSizeMismatch(index, expected, |data|));
      }
      pieces := pieces[index := Some(data)];
      return Success(());
    }

    method IsComplete() returns (complete: bool)
      requires Valid()
      ensures complete <==> Complete(pieces)
    {
      for i := 0 to |pieces|
        invariant forall k :: 0 <= k < i ==> pieces[k].Some?
      {
        if pieces[i].None? {
          return false;
        }
      }
      return true;
    }

    method Assemble() returns (r: Result<seq<byte>, MetadataError>)
      requires Valid()
      ensures r == Assembled(pieces)
    {
      var out := [];
      assert pieces[..0] == [];
      for i := 0 to |pieces|
        invariant Assembled(pieces[..i]) == Success(out)
      {
        assert pieces[..i + 1][..i] == pieces[..i];
        if pieces[i].None? {
          MissingIsIncomplete(pieces, i, |pieces|);
          assert pieces[..|pieces|] == pieces;
          return Failure(IncompleteAssembly);
        }
        out := out + pieces[i].value;
      }
      assert pieces[..|pieces|] == pieces;
      return Success(out);
    }
  }

  // ---- end to end ------------------------------------------------------------------

  /** What an assembler holds once the chunks `asked` of `metadata` are in. */
  function Received(metadata: seq<byte>, asked: seq<nat>): Parts {
    seq(PieceCount(|metadata|), i requires 0 <= i < PieceCount(|metadata|) =>
      if i in asked && i * PIECE_SIZE <= |metadata| then Some(Chunk(metadata, PIECE_SIZE, i)) else None)
  }

  lemma ChunkLength(metadata: seq<byte>, i: nat)
    requires metadata != [] && i < PieceCount(|metadata|)
    ensures i * PIECE_SIZE < |metadata| && |Chunk(metadata, PIECE_SIZE, i)| == ExpectedLen(|metadata|, i)
  {
    var n, count := |metadata|, CeilDiv(|metadata|, PIECE_SIZE);
    CeilDivBounds(n, PIECE_SIZE);
    ChunkStarts(n, PIECE_SIZE, i);
  }

  /** Every chunk of the dictionary is accepted, whenever it comes and however often. */
  lemma ChunkAccepted(metadata: seq<byte>, asked: seq<nat>, i: nat)
    requires metadata != [] && i < PieceCount(|metadata|)
    ensures i * PIECE_SIZE < |metadata|
    ensures AddPart(|metadata|, Received(metadata, asked), i, Chunk(metadata, PIECE_SIZE, i))
         == Success(Received(metadata, asked + [i]))
  {
    ChunkLength(metadata, i);
    var before, after := Received(metadata, asked), Received(metadata, asked + [i]);
    assert before[i := Some(Chunk(metadata, PIECE_SIZE, i))] == after;
  }

  /** One exchange over the wire: a request goes out, the answer comes back and is put in. `None` if the server hangs up
      or the answer is not accepted. */
  function AskFor(metadata: seq<byte>, asked: nat, parts: Parts, i: nat): Option<Parts>
    requires |parts| == PieceCount(|metadata|) && i < U32
  {
    match ReplyTo(metadata, asked, EncodeMessage(Request(i)))
    case Sent(payload) =>
      (match DecodeMessage(payload)
       case Success(Data(piece, _, data)) =>
         (match AddPart(|metadata|, parts, piece, data)
          case Success(more) => Some(more)
          case Failure(_) => None)
       case _ => None)
    case _ => None
  }

  ghost predicate Known(metadata: seq<byte>, order: seq<nat>) {
    |metadata| <= MAX_SIZE && metadata != [] && forall k :: 0 <= k < |order| ==> order[k] < PieceCount(|metadata|)
  }

  lemma FewPieces(metadata: seq<byte>)
    requires |metadata| <= MAX_SIZE
    ensures PieceCount(|metadata|) <= 1024
  {
    CeilDivBounds(|metadata|, PIECE_SIZE);
  }

  /** All the requests of `order`, one after another. */
  function Exchange(metadata: seq<byte>, order: seq<nat>): (r: Option<Parts>)
    requires Known(metadata, order)
    ensures r.Some? ==> |r.value| == PieceCount(|metadata|)
  {
    if order == [] then Some(Empty(|metadata|))
    else
      match Exchange(metadata, order[..|order| - 1])
      case None => None
      case Some(parts) =>
        FewPieces(metadata);
        AskFor(metadata, |order| - 1, parts, order[|order| - 1])
  }

  lemma AskWorks(metadata: seq<byte>, asked: seq<nat>, i: nat)
    requires Known(metadata, [i])
    ensures i < U32
    ensures AskFor(metadata, |asked|, Received(metadata, asked), i)
         == if |asked| < RequestLimit(metadata) then Some(Received(metadata, asked + [i])) else None
  {
    assert [i][0] < PieceCount(|metadata|);
    FewPieces(metadata);
    var request := EncodeMessage(Request(i));
    MessageReadBack(Request(i), []);
    assert request + [] == request;
    ChunkAccepted(metadata, asked, i);
    MessageReadBack(AnswerTo(metadata, i), []);
  }

  lemma FrontAndLast(order: seq<nat>)
    requires order != []
    ensures order[..|order| - 1] + [order[|order| - 1]] == order
  {
  }

  /** A run of requests in any order, with any repeats, is answered to the end exactly when it is no longer than the
      server's limit, and then every chunk asked for is there. */
  lemma {:induction false} ExchangeWorks(metadata: seq<byte>, order: seq<nat>)
    requires Known(metadata, order)
    ensures Exchange(metadata, order)
         == if |order| <= 2 * CeilDiv(|metadata|, 16384) + 8 then Some(Received(metadata, order)) else None
    decreases |order|
  {
    if order == [] {
      assert Received(metadata, []) == Empty(|metadata|);
    } else {
      var front, i := order[..|order| - 1], order[|order| - 1];
      FrontAndLast(order);
      ExchangeWorks(metadata, front);
      AskWorks(metadata, front, i);
    }
  }

  lemma {:induction false} ReceivedAssembles(metadata: seq<byte>, asked: seq<nat>, n: nat)
    requires metadata != [] && n <= PieceCount(|metadata|) && forall i: nat :: i < n ==> i in asked
    ensures Assembled(Received(metadata, asked)[..n]) == Success(metadata[..Min(n * PIECE_SIZE, |metadata|)])
    decreases n
  {
    var parts := Received(metadata, asked);
    if n > 0 {
      ReceivedAssembles(metadata, asked, n - 1);
      assert parts[..n][..n - 1] == parts[..n - 1];
      ChunkLength(metadata, n - 1);
      var at := (n - 1) * PIECE_SIZE;
      assert parts[..n][n - 1] == Some(Chunk(metadata, PIECE_SIZE, n - 1));
      SliceExtends(metadata, at, Min(at + PIECE_SIZE, |metadata|));
    }
  }

  lemma {:induction false} MissingIsIncomplete(parts: Parts, i: nat, n: nat)
    requires i < n <= |parts| && parts[i].None?
    ensures Assembled(parts[..n]) == Failure(IncompleteAssembly)
    decreases n
  {
    assert parts[..n][..n - 1] == parts[..n - 1];
    if i < n - 1 {
      MissingIsIncomplete(parts, i, n - 1);
    }
  }

  /** Every piece of the dictionary is asked for. */
  ghost predicate AllAsked(metadata: seq<byte>, order: seq<nat>) {
    forall i: nat :: i < PieceCount(|metadata|) ==> i in order
  }

  lemma ReceivedIsWhole(metadata: seq<byte>, order: seq<nat>)
    requires metadata != []
    ensures Assembled(Received(metadata, order))
         == if AllAsked(metadata, order) then Success(metadata) else Failure(IncompleteAssembly)
  {
    var n, parts := PieceCount(|metadata|), Received(metadata, order);
    assert parts[..n] == parts;
    if AllAsked(metadata, order) {
      ReceivedAssembles(metadata, order, n);
      CeilDivBounds(|metadata|, PIECE_SIZE);
      assert metadata[..|metadata|] == metadata;
    } else {
      var i: nat :| i < n && i !in order;
      MissingIsIncomplete(parts, i, n);
    }
  }

  /** The whole exchange: for any dictionary of 1 byte to 16 MiB, asking in any order and with any repeats within the
      limit, what is assembled is the dictionary if every piece was asked for, and refused as incomplete if not. */
  lemma EndToEnd(metadata: seq<byte>, order: seq<nat>)
    requires Known(metadata, order) && |order| <= 2 * CeilDiv(|metadata|, 16384) + 8
    ensures Exchange(metadata, order).Some?
    ensures Assembled(Exchange(metadata, order).value)
         == if AllAsked(metadata, order) then Success(metadata) else Failure(IncompleteAssembly)
  {
    ExchangeWorks(metadata, order);
    ReceivedIsWhole(metadata, order);
  }

  /** A fetcher that asks once for each piece, in any order, is never asking too much, and gets the dictionary. */
  lemma OncePerPiece(metadata: seq<byte>, order: seq<nat>)
    requires Known(metadata, order) && |order| == PieceCount(|metadata|) && AllAsked(metadata, order)
    ensures Exchange(metadata, order).Some? && Assembled(Exchange(metadata, order).value) == Success(metadata)
  {
    CeilDivBounds(|metadata|, PIECE_SIZE);
    EndToEnd(metadata, order);
  }

  // ---- any chunks at all -----------------------------------------------------------

  /** Each part that is there is of the length its place calls for. */
  predicate Sized(totalSize: nat, parts: Parts) {
    && |parts| == PieceCount(totalSize)
    && forall i :: 0 <= i < |parts| && parts[i].Some? ==> |parts[i].value| == ExpectedLen(totalSize, i)
  }

  lemma AddKeepsSized(totalSize: nat, parts: Parts, index: nat, data: seq<byte>)
    requires Sized(totalSize, parts)
    ensures Sized(totalSize, Empty(totalSize))
    ensures AddPart(totalSize, parts, index, data).Success? ==>
      Sized(totalSize, AddPart(totalSize, parts, index, data).value)
  {
  }

  lemma {:induction false} SizedPrefix(totalSize: nat, parts: Parts, n: nat)
    requires totalSize > 0 && Sized(totalSize, parts) && n <= |parts|
    ensures Assembled(parts[..n]).Success? ==> |Assembled(parts[..n]).value| == Min(n * PIECE_SIZE, totalSize)
    decreases n
  {
    if n > 0 {
      SizedPrefix(totalSize, parts, n - 1);
      assert parts[..n][..n - 1] == parts[..n - 1];
      CeilDivBounds(totalSize, PIECE_SIZE);
    }
  }

  /** Whoever sends the chunks, what is assembled is as long as was claimed. For a claim of nothing it would not be,
      which is why that claim is refused. */
  lemma AssembledLength(totalSize: nat, parts: Parts)
    requires Sized(totalSize, parts) && Assembled(parts).Success?
    ensures |Assembled(parts).value| == totalSize <==> totalSize > 0
  {
    assert parts[..|parts|] == parts;
    if totalSize > 0 {
      SizedPrefix(totalSize, parts, |parts|);
      CeilDivBounds(totalSize, PIECE_SIZE);
    } else {
      assert parts[..0] == [];
    }
  }
}
