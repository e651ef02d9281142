/** A torrent made of an info dictionary (src/torrent.rs), from a `.torrent` file or from what a magnet link's peers
    sent, and written out again (src/create.rs). */
module SavedTorrents {
  import opened Numbers
  import opened Bytes
  import opened Bencode
  import opened BencodeProofs
  import opened Torrents
  import opened TorrentFields
  import opened FileTrees
  import Layout
  import HashFile
  import Merkle
  import PiecePlan

  datatype Hashes = Hashes(sha1: seq<byte> -> seq<byte>, sha256: seq<byte> -> seq<byte>)

  datatype Trackers = Trackers(announce: Option<seq<byte>>, announceList: seq<seq<seq<byte>>>, urlList: seq<seq<byte>>)

  datatype V2Info = V2Info(infoHash: seq<byte>, layers: seq<Entry>, files: seq<PiecePlan.V2File>)

  datatype Torrent = Torrent(info: Value, infoHash: seq<byte>, v2: Option<V2Info>, trackers: Trackers)

  const MAX_PIECE_LENGTH: int := 0x800_0000

  function TiersOf(judge: Judge, items: seq<Value>): seq<seq<seq<byte>>> {
    if items == [] then []
    else
      var rest := TiersOf(judge, items[1..]);
      if items[0].List? then [TextsOf(judge, items[0].items)] + rest else rest
  }

  function ShortHash(hash: seq<byte>): seq<byte> {
    hash[..Min(20, |hash|)]
  }

  // ---- build_torrent_from_info -----------------------------------------------------

  predicate UnknownVersion(info: Value) {
    IntOf(Get(info, MetaVersion)).Some? && IntOf(Get(info, MetaVersion)).value != 2
  }

  predicate SafeName(judge: Judge, info: Value) {
    && Get(info, Name).Some?
    && var name := TextOf(judge, Get(info, Name).value);
    && name.Some? && judge.safe(name.value)
  }

  predicate SafePath(judge: Judge, path: seq<seq<byte>>) {
    path != [] && forall i :: 0 <= i < |path| ==> judge.safe(path[i])
  }

  /** The length of one entry of `files`, if the entry will do. */
  function EntryLength(judge: Judge, file: Value): Option<nat> {
    match (IntOf(Get(file, Length)), Get(file, Path))
    case (Some(length), Some(List(path))) =>
      if length >= 0 && SafePath(judge, TextsOf(judge, path)) then Some(length) else None
    case _ => None
  }

  function EntryLengths(judge: Judge, files: seq<Value>): Option<seq<nat>> {
    if files == [] then Some([])
    else
      match (EntryLength(judge, files[0]), EntryLengths(judge, files[1..]))
      case (Some(length), Some(rest)) => Some([length] + rest)
      case _ => None
  }

  /** The lengths of the files: one file's, or those of a list. */
  function FileLengths(judge: Judge, info: Value): Option<seq<nat>> {
    match IntOf(Get(info, Length))
    case Some(length) => if length < 0 then None else Some([length])
    case None =>
      match Get(info, Files)
      case Some(List(files)) => EntryLengths(judge, files)
      case _ => None
  }

  /** What a v1 torrent's info dictionary must be; the count of its pieces is checked against the files. */
  predicate V1Accepts(judge: Judge, info: Value) {
    var pieceLength, pieces, lengths := IntOf(Get(info, PieceLength)), Get(info, Pieces), FileLengths(judge, info);
    && pieceLength.Some? && 0 < pieceLength.value <= MAX_PIECE_LENGTH
    && pieces.Some? && pieces.value.ByteString? && |pieces.value.b| % 20 == 0
    && SafeName(judge, info)
    && lengths.Some? && Layout.Whole(lengths.value) < U64
    && |pieces.value.b| / 20 == CeilDiv(Layout.Whole(lengths.value), pieceLength.value)
  }

  predicate V2Shape(judge: Judge, info: Value) {
    var pieceLength := IntOf(Get(info, PieceLength));
    && pieceLength.Some? && HashFile.ValidPieceLength(pieceLength.value) && pieceLength.value <= MAX_PIECE_LENGTH
    && SafeName(judge, info)
  }

  /** `v2_meta`: the v2 part of a torrent, if its file tree is sound and its layers fit the files. */
  function V2Of(h: Hashes, judge: Judge, info: Value, raw: seq<byte>, layers: Option<Value>): Option<V2Info> {
    var parsed := ParseLayers(layers);
    if parsed.Some? && TreeSound(judge, info) && TreeFits(TreeHasher(h), judge, info, parsed.value)
    then Some(V2Info(h.sha256(raw), parsed.value, TreeFiles(judge, info)))
    else None
  }

  /** SHA-256 as the trees use it. */
  function TreeHasher(h: Hashes): Merkle.Hasher {
    Merkle.Hasher(
      (a: Merkle.Digest, b: Merkle.Digest) => Merkle.Digest(h.sha256(a.bytes + b.bytes)),
      block => Merkle.Digest(h.sha256(block)))
  }

  /** The lengths of all files add up to a 64-bit number. */
  predicate TotalFits(files: seq<PiecePlan.V2File>) {
    Layout.Whole(seq(|files|, i requires 0 <= i < |files| => files[i].length)) < U64
  }

  /** `build_torrent_from_info`: v2 only if there is a file tree and no v1 hashes, else v1; a v1 torrent with a file
      tree as well is a hybrid, and a v1 torrent still if the tree or the layers are no good. */
  function BuildFromInfo(h: Hashes, judge: Judge, info: Value, raw: seq<byte>, trackers: Trackers,
                         layers: Option<Value>)
    : Option<Torrent>
  {
    var v2 := V2Of(h, judge, info, raw, layers);
    if UnknownVersion(info) then None
    else if HasFileTree(info) && Get(info, Pieces).None? then
      if V2Shape(judge, info) && v2.Some? && TotalFits(v2.value.files)
      then Some(Torrent(info, ShortHash(h.sha256(raw)), v2, trackers))
      else None
    else if V1Accepts(judge, info) then Some(Torrent(info, h.sha1(raw), v2, trackers))
    else None
  }

  // ---- parse_torrent_file and from_info_dict_bytes ---------------------------------

  /** The exact bytes of the info dictionary. */
  function RawInfo(data: seq<byte>): (raw: seq<byte>)
    requires Decode(data, true).Success? && Get(Decode(data, true).value, Info).Some?
    ensures raw == Encode(Get(Decode(data, true).value, Info).value)
  {
    ParsersAgree(data, KeyOf(Info));
    var span := FindSpan(data, KeyOf(Info)).value;
    data[span.0..span.1]
  }

  function ReadAnnounce(judge: Judge, v: Option<Value>): Option<seq<byte>> {
    if v.None? then None else TextOf(judge, v.value)
  }

  function ReadTiers(judge: Judge, v: Option<Value>): seq<seq<seq<byte>>> {
    match v
    case Some(List(items)) => TiersOf(judge, items)
    case _ => []
  }

  /** One web seed may be given by itself. */
  function ReadUrls(judge: Judge, v: Option<Value>): seq<seq<byte>> {
    match v
    case Some(ByteString(b)) => TextsOf(judge, [ByteString(b)])
    case Some(List(items)) => TextsOf(judge, items)
    case _ => []
  }

  function ReadTrackers(judge: Judge, top: Value): Trackers {
    Trackers(
      ReadAnnounce(judge, Get(top, Announce)),
      ReadTiers(judge, Get(top, AnnounceList)),
      ReadUrls(judge, Get(top, UrlList))
    )
  }

  function OrRejected(t: Option<Torrent>): Result<Torrent, TorrentError> {
    if t.None? then Failure(Rejected) else Success(t.value)
  }

  function ParseTorrent(h: Hashes, judge: Judge, data: seq<byte>): Result<Torrent, TorrentError> {
    match Decode(data, true)
    case Failure(e) => Failure(Decoding(e))
    case Success(top) =>
      if !top.Dict? then Failure(NotADict)
      else if Get(top, Info).None? then Failure(MissingKey)
      else
        OrRejected(
          BuildFromInfo(h, judge, Get(top, Info).value, RawInfo(data), ReadTrackers(judge, top), Get(top, PieceLayers)))
  }

  /** A torrent from the info dictionary a magnet link's peers sent. */
  function FromInfoBytes(h: Hashes, judge: Judge, raw: seq<byte>, expected: seq<byte>,
                         announce: Option<seq<byte>>, announceList: seq<seq<seq<byte>>>): Result<Torrent, TorrentError>
  {
    if h.sha1(raw) != expected && ShortHash(h.sha256(raw)) != expected then Failure(Rejected)
    else
      match Decode(raw, true)
      case Failure(e) => Failure(Decoding(e))
      case Success(info) =>
        OrRejected(BuildFromInfo(h, judge, info, raw, Trackers(announce, announceList, []), None))
  }

  // ---- torrent_file_bytes ----------------------------------------------------------

  predicate IsV2Only(t: Torrent) {
    t.v2.Some? && Get(t.info, Pieces).None?
  }

  function Texts(strings: seq<seq<byte>>): seq<Value> {
    if strings == [] then [] else [ByteString(strings[0])] + Texts(strings[1..])
  }

  function Tiers(tiers: seq<seq<seq<byte>>>): seq<Value> {
    if tiers == [] then [] else [List(Texts(tiers[0]))] + Tiers(tiers[1..])
  }

  function PutIf(m: seq<Entry>, key: seq<byte>, value: Option<Value>): seq<Entry> {
    if value.None? then m else PutNew(m, key, value.value)
  }

  function AnnounceValue(t: Trackers): Option<Value> {
    if t.announce.None? then None else Some(ByteString(t.announce.value))
  }

  function AnnounceListValue(t: Trackers): Option<Value> {
    if t.announceList == [] then None else Some(List(Tiers(t.announceList)))
  }

  /** One web seed is written as a string, several as a list. */
  function UrlListValue(t: Trackers): Option<Value> {
    if t.urlList == [] then None
    else if |t.urlList| == 1 then Some(ByteString(t.urlList[0]))
    else Some(List(Texts(t.urlList)))
  }

  function TrackerEntries(t: Trackers): seq<Entry> {
    PutIf(PutIf(PutIf([], KeyOf(Announce), AnnounceValue(t)), KeyOf(AnnounceList), AnnounceListValue(t)),
          KeyOf(UrlList), UrlListValue(t))
  }

  /** The entries of a `.torrent` file, put in one after another. */
  function TopLevel(info: Value, layers: Option<seq<Entry>>, t: Trackers): seq<Entry> {
    PutIf(PutNew(TrackerEntries(t), KeyOf(Info), info), KeyOf(PieceLayers),
          if layers.None? then None else Some(Dict(layers.value)))
  }

  /** `torrent_file_bytes`: the file, or a refusal to write one whose info hash would differ. */
  function TorrentFileBytes(h: Hashes, t: Torrent): Option<seq<byte>> {
    if IsV2Only(t) then
      if h.sha256(Encode(t.info)) != t.v2.value.infoHash then None
      else Some(Encode(Dict(TopLevel(t.info, Some(t.v2.value.layers), t.trackers))))
    else if h.sha1(Encode(t.info)) != t.infoHash then None
    else Some(Encode(Dict(TopLevel(t.info, None, t.trackers))))
  }

  /** The layers that go into the file with a torrent. */
  function WrittenLayers(t: Torrent): Option<seq<Entry>> {
    if IsV2Only(t) then Some(t.v2.value.layers) else None
  }

  /** A torrent as `BuildFromInfo` makes it of its own info dictionary's bytes. */
  ghost predicate Built(h: Hashes, judge: Judge, t: Torrent, layers: Option<Value>) {
    BuildFromInfo(h, judge, t.info, Encode(t.info), t.trackers, layers) == Some(t)
  }

  lemma BuiltReproduces(h: Hashes, judge: Judge, t: Torrent, layers: Option<Value>)
    requires Built(h, judge, t, layers)
    ensures TorrentFileBytes(h, t) == Some(Encode(Dict(TopLevel(t.info, WrittenLayers(t), t.trackers))))
  {
  }

  lemma ParsedIsBuilt(h: Hashes, judge: Judge, data: seq<byte>)
    requires ParseTorrent(h, judge, data).Success?
    ensures var t := ParseTorrent(h, judge, data).value;
      && Built(h, judge, t, Get(Decode(data, true).value, PieceLayers))
      && t.info == Get(Decode(data, true).value, Info).value
      && t.trackers == ReadTrackers(judge, Decode(data, true).value)
  {
  }

  lemma FetchedIsBuilt(h: Hashes, judge: Judge, raw: seq<byte>, expected: seq<byte>,
                       announce: Option<seq<byte>>, announceList: seq<seq<seq<byte>>>)
    requires FromInfoBytes(h, judge, raw, expected, announce, announceList).Success?
    ensures var t := FromInfoBytes(h, judge, raw, expected, announce, announceList).value;
      && Built(h, judge, t, None) && raw == Encode(t.info) && WellFormed(t.info) && Nest(t.info) <= MAX_DEPTH
      && t.trackers == Trackers(announce, announceList, [])
  {
    DecodeStrict(raw, Decode(raw, true).value);
  }

  /** A torrent that was parsed, from a file or from a peer's metadata, is never refused: its info dictionary encodes to
      the bytes its hash was taken over. */
  lemma ParsedReproduces(h: Hashes, judge: Judge, data: seq<byte>, expected: seq<byte>,
                         announce: Option<seq<byte>>, announceList: seq<seq<seq<byte>>>)
    ensures ParseTorrent(h, judge, data).Success? ==> TorrentFileBytes(h, ParseTorrent(h, judge, data).value).Some?
    ensures FromInfoBytes(h, judge, data, expected, announce, announceList).Success?
        ==> TorrentFileBytes(h, FromInfoBytes(h, judge, data, expected, announce, announceList).value).Some?
  {
    if ParseTorrent(h, judge, data).Success? {
      ParsedIsBuilt(h, judge, data);
      BuiltReproduces(h, judge, ParseTorrent(h, judge, data).value, Get(Decode(data, true).value, PieceLayers));
    }
    if FromInfoBytes(h, judge, data, expected, announce, announceList).Success? {
      FetchedIsBuilt(h, judge, data, expected, announce, announceList);
      BuiltReproduces(h, judge, FromInfoBytes(h, judge, data, expected, announce, announceList).value, None);
    }
  }

  // ---- what a torrent is named by ---------------------------------------------------

  /** `info_hash_matches`: the SHA-1 of the bytes, or the first 20 bytes of their SHA-256, is the hash. */
  predicate NamedBy(h: Hashes, raw: seq<byte>, hash: seq<byte>) {
    h.sha1(raw) == hash || (|h.sha256(raw)| >= 20 && h.sha256(raw)[..20] == hash)
  }

  /** An info dictionary from a peer is accepted exactly when it is the one the magnet link names, strict decoding takes
      it, and a torrent can be made of it. */
  lemma FetchedExactly(h: Hashes, judge: Judge, raw: seq<byte>, expected: seq<byte>,
                       announce: Option<seq<byte>>, announceList: seq<seq<seq<byte>>>)
    requires |h.sha256(raw)| == 32
    ensures FromInfoBytes(h, judge, raw, expected, announce, announceList).Success?
       <==> NamedBy(h, raw, expected) && Decode(raw, true).Success?
            && BuildFromInfo(h, judge, Decode(raw, true).value, raw, Trackers(announce, announceList, []), None).Some?
    ensures !NamedBy(h, raw, expected) ==>
      FromInfoBytes(h, judge, raw, expected, announce, announceList) == Failure(Rejected)
  {
  }

  /** The hash of a torrent: that of v1 where there are v1 pieces, and the first 20 bytes of that of v2 where there are
      none. */
  ghost predicate HashesAs(h: Hashes, t: Torrent, raw: seq<byte>) {
    && t.infoHash == (if Get(t.info, Pieces).Some? then h.sha1(raw) else h.sha256(raw)[..Min(20, |h.sha256(raw)|)])
    && (t.v2.Some? ==> t.v2.value.infoHash == h.sha256(raw))
  }

  /** A torrent's hash is that of the very bytes of its info dictionary: those between the scanner's ends in a file, or
      those a peer sent. */
  lemma HashIsOfTheBytes(h: Hashes, judge: Judge, data: seq<byte>, expected: seq<byte>,
                         announce: Option<seq<byte>>, announceList: seq<seq<seq<byte>>>)
    ensures ParseTorrent(h, judge, data).Success? ==>
      && FindSpan(data, KeyOf(Info)).Success?
      && var span := FindSpan(data, KeyOf(Info)).value;
      && 0 <= span.0 <= span.1 <= |data| && HashesAs(h, ParseTorrent(h, judge, data).value, data[span.0..span.1])
    ensures FromInfoBytes(h, judge, data, expected, announce, announceList).Success? ==>
      HashesAs(h, FromInfoBytes(h, judge, data, expected, announce, announceList).value, data)
  {
    if ParseTorrent(h, judge, data).Success? {
      var top := Decode(data, true).value;
      ParsersAgree(data, KeyOf(Info));
      BuiltHash(h, judge, Get(top, Info).value, RawInfo(data), ReadTrackers(judge, top), Get(top, PieceLayers));
    }
    if FromInfoBytes(h, judge, data, expected, announce, announceList).Success? {
      BuiltHash(h, judge, Decode(data, true).value, data, Trackers(announce, announceList, []), None);
    }
  }

  lemma BuiltHash(h: Hashes, judge: Judge, info: Value, raw: seq<byte>, trackers: Trackers, layers: Option<Value>)
    ensures BuildFromInfo(h, judge, info, raw, trackers, layers).Some? ==>
      HashesAs(h, BuildFromInfo(h, judge, info, raw, trackers, layers).value, raw)
  {
  }

  /** What is accepted as a v1 torrent has pieces that make sense: none empty, none longer than the piece length, and
      together all the files. */
  lemma AcceptedMakesSense(judge: Judge, info: Value)
    requires V1Accepts(judge, info)
    ensures var total := Layout.Whole(FileLengths(judge, info).value);
      Layout.Sensible(total, Get(info, PieceLength).value.i, |Get(info, Pieces).value.b| / 20)
  {
    var total := Layout.Whole(FileLengths(judge, info).value);
    Layout.PieceCountExact(total, Get(info, PieceLength).value.i, |Get(info, Pieces).value.b| / 20);
  }

  // ---- what an accepted torrent may not do ------------------------------------------

  /** An entry of `files` that will do: a length that is not negative, and of the texts of its path, of which there is
      one, every one a safe name. */
  predicate EntryFits(judge: Judge, file: Value) {
    var length, path := Get(file, Length), Get(file, Path);
    && length.Some? && length.value.Int? && length.value.i >= 0
    && path.Some? && path.value.List? && AllSafe(judge, TextsOf(judge, path.value.items))
  }

  predicate AllSafe(judge: Judge, texts: seq<seq<byte>>) {
    texts != [] && forall t :: t in texts ==> judge.safe(t)
  }

  lemma EntryExactly(judge: Judge, file: Value)
    ensures EntryLength(judge, file).Some? <==> EntryFits(judge, file)
    ensures EntryLength(judge, file).Some? ==> Get(file, Length) == Some(Int(EntryLength(judge, file).value))
  {
    var path := Get(file, Path);
    if path.Some? && path.value.List? {
      SafePathExactly(judge, TextsOf(judge, path.value.items));
    }
  }

  lemma SafePathExactly(judge: Judge, texts: seq<seq<byte>>)
    ensures SafePath(judge, texts) <==> AllSafe(judge, texts)
  {
    if SafePath(judge, texts) {
      forall t | t in texts ensures judge.safe(t) {
        var i :| 0 <= i < |texts| && texts[i] == t;
      }
    }
  }

  /** The files of a list will do exactly when each of them does. */
  lemma {:induction false} EntriesExactly(judge: Judge, files: seq<Value>)
    ensures EntryLengths(judge, files).Some? <==> forall i :: 0 <= i < |files| ==> EntryFits(judge, files[i])
    ensures EntryLengths(judge, files).Some? ==>
      && |EntryLengths(judge, files).value| == |files|
      && forall i :: 0 <= i < |files| ==> Get(files[i], Length) == Some(Int(EntryLengths(judge, files).value[i]))
    decreases |files|
  {
    if files != [] {
      EntryExactly(judge, files[0]);
      EntriesExactly(judge, files[1..]);
    }
  }

  /** What is read of a list: its texts, in order, whatever else is in it. */
  lemma {:induction false} TextsOfParts(judge: Judge, a: seq<Value>, b: seq<Value>)
    ensures TextsOf(judge, a + b) == TextsOf(judge, a) + TextsOf(judge, b)
    decreases |a|
  {
    if a == [] {
      assert a + b == b;
    } else {
      TextsOfParts(judge, a[1..], b);
      assert (a + b)[1..] == a[1..] + b;
    }
  }

  lemma TextsOfOne(judge: Judge, v: Value)
    ensures TextsOf(judge, [v]) == if v.ByteString? && judge.text(v.b) then [v.b] else []
  {
    assert [v][1..] == [];
  }

  /** The name a torrent goes by is text and one safe path component, and its piece length is from 1 byte to 128 MiB. */
  predicate NameAndPiecesFit(judge: Judge, info: Value) {
    var name, length := Get(info, Name), Get(info, PieceLength);
    && name.Some? && name.value.ByteString? && judge.text(name.value.b) && judge.safe(name.value.b)
    && length.Some? && length.value.Int? && 1 <= length.value.i <= 128 * 1024 * 1024
  }

  /** Its files, by v1 or by v2, are all at safe paths. */
  predicate FilesFit(judge: Judge, t: Torrent) {
    var files := Get(t.info, Files);
    && (Get(t.info, Pieces).Some? && IntOf(Get(t.info, Length)).None? ==>
      && files.Some? && files.value.List?
      && forall i :: 0 <= i < |files.value.items| ==> EntryFits(judge, files.value.items[i]))
    && (t.v2.Some? ==> forall i :: 0 <= i < |t.v2.value.files| ==> FileSound(judge, t.v2.value.files[i]))
  }

  /** Whatever info dictionary a torrent is made of, nothing in it names a place outside where it belongs. */
  lemma AcceptedIsSafe(h: Hashes, judge: Judge, info: Value, raw: seq<byte>, trackers: Trackers, layers: Option<Value>)
    requires BuildFromInfo(h, judge, info, raw, trackers, layers).Some?
    ensures var t := BuildFromInfo(h, judge, info, raw, trackers, layers).value;
      t.info == info && NameAndPiecesFit(judge, info) && FilesFit(judge, t)
  {
    var t := BuildFromInfo(h, judge, info, raw, trackers, layers).value;
    NameFits(judge, info);
    if t.v2.Some? {
      forall i | 0 <= i < |t.v2.value.files| ensures FileSound(judge, t.v2.value.files[i]) {
        ParsedFilesAreSound(judge, Get(info, FileTree).value, i);
      }
    }
    if Get(info, Pieces).Some? && IntOf(Get(info, Length)).None? {
      EntriesExactly(judge, Get(info, Files).value.items);
    }
  }

  lemma NameFits(judge: Judge, info: Value)
    requires V1Accepts(judge, info) || V2Shape(judge, info)
    ensures NameAndPiecesFit(judge, info)
  {
  }

  /** And a v1 info dictionary with all that, and a SHA-1 for each piece of files that add up to a 64-bit number, is
      accepted. */
  lemma V1Exactly(judge: Judge, info: Value)
    ensures V1Accepts(judge, info) <==> NameAndPiecesFit(judge, info) && PiecesFit(judge, info)
  {
  }

  predicate PiecesFit(judge: Judge, info: Value)
    requires NameAndPiecesFit(judge, info)
  {
    var lengths, hashes := FileLengths(judge, info), Get(info, Pieces);
    && lengths.Some? && hashes.Some? && hashes.value.ByteString?
    && var total := Layout.Whole(lengths.value);
    && total <= 0xFFFF_FFFF_FFFF_FFFF
    && |hashes.value.b| == 20 * CeilDiv(total, Get(info, PieceLength).value.i)
  }

  // ---- what is written is well formed ----------------------------------------------

  predicate TextsFit(judge: Judge, strings: seq<seq<byte>>) {
    forall i :: 0 <= i < |strings| ==> judge.text(strings[i]) && |strings[i]| <= I64_MAX
  }

  predicate TiersFit(judge: Judge, tiers: seq<seq<seq<byte>>>) {
    forall i :: 0 <= i < |tiers| ==> TextsFit(judge, tiers[i])
  }

  /** Trackers as they are held: text, none of it longer than a length can say. */
  predicate TrackersFit(judge: Judge, t: Trackers) {
    && (t.announce.Some? ==> TextsFit(judge, [t.announce.value]))
    && TiersFit(judge, t.announceList)
    && TextsFit(judge, t.urlList)
  }

  /** Piece layers as they are held: byte strings under sorted roots. */
  predicate LayersHeld(layers: Option<seq<Entry>>) {
    layers.Some? ==>
      && SortedFrom(None, layers.value) && WellFormedEntries(layers.value) && NestEntries(layers.value) == 0
      && forall i :: 0 <= i < |layers.value| ==> IsLayer(layers.value[i])
  }

  lemma {:induction false} TextsWellFormed(judge: Judge, strings: seq<seq<byte>>)
    requires TextsFit(judge, strings)
    ensures WellFormedItems(Texts(strings)) && NestItems(Texts(strings)) == 0
    ensures TextsOf(judge, Texts(strings)) == strings
  {
    if strings != [] {
      assert judge.text(strings[0]);
      TextsWellFormed(judge, strings[1..]);
      TailOf(ByteString(strings[0]), Texts(strings[1..]));
      assert strings == [strings[0]] + strings[1..];
    }
  }

  lemma {:induction false} TiersWellFormed(judge: Judge, tiers: seq<seq<seq<byte>>>)
    requires TiersFit(judge, tiers)
    ensures WellFormedItems(Tiers(tiers)) && NestItems(Tiers(tiers)) <= 1
    ensures TiersOf(judge, Tiers(tiers)) == tiers
  {
    if tiers != [] {
      TextsWellFormed(judge, tiers[0]);
      TiersWellFormed(judge, tiers[1..]);
      TailOf(List(Texts(tiers[0])), Tiers(tiers[1..]));
      assert tiers == [tiers[0]] + tiers[1..];
    }
  }

  lemma UrlsWellFormed(judge: Judge, t: Trackers)
    requires TrackersFit(judge, t)
    ensures UrlListValue(t).Some? ==> WellFormed(UrlListValue(t).value) && Nest(UrlListValue(t).value) <= 2
    ensures ReadUrls(judge, UrlListValue(t)) == t.urlList
  {
    TextsWellFormed(judge, t.urlList);
    if |t.urlList| == 1 {
      assert t.urlList == [t.urlList[0]];
      assert Texts(t.urlList) == [ByteString(t.urlList[0])];
    }
  }

  lemma AnnounceWellFormed(judge: Judge, t: Trackers)
    requires TrackersFit(judge, t)
    ensures AnnounceValue(t).Some? ==> WellFormed(AnnounceValue(t).value) && Nest(AnnounceValue(t).value) <= 2
    ensures ReadAnnounce(judge, AnnounceValue(t)) == t.announce
  {
    if t.announce.Some? {
      assert judge.text([t.announce.value][0]);
    }
  }

  /** Entries of a file being put together: sorted, well formed, and none but `info` nesting more than two levels. */
  ghost predicate Building(m: seq<Entry>, info: Option<Value>) {
    && SortedFrom(None, m) && WellFormedEntries(m)
    && Lookup(m, KeyOf(Info)) == info
    && NestEntries(m) <= Max(2, if info.Some? then Nest(info.value) else 0)
  }

  lemma PutOther(m: seq<Entry>, info: Option<Value>, key: Key, value: Option<Value>)
    requires Building(m, info) && key != Info
    requires value.Some? ==> WellFormed(value.value) && Nest(value.value) <= 2
    ensures Building(PutIf(m, KeyOf(key), value), info)
  {
    if value.Some? {
      KeyFits(key);
      KeysDiffer(key, Info);
      PutNewKeeps(None, m, KeyOf(key), value.value);
      PutNewWellFormed(m, KeyOf(key), value.value);
      LookupPut(None, m, KeyOf(key), value.value, KeyOf(Info));
    }
  }

  /** The entry a key has among those put in one after another. */
  lemma LookupPutIf(m: seq<Entry>, key: Key, value: Option<Value>, k: Key)
    requires SortedFrom(None, m)
    ensures Lookup(PutIf(m, KeyOf(key), value), KeyOf(k))
         == if k == key && Lookup(m, KeyOf(key)).None? then value else Lookup(m, KeyOf(k))
  {
    if value.Some? {
      LookupPut(None, m, KeyOf(key), value.value, KeyOf(k));
      if k != key {
        KeysDiffer(k, key);
      }
    }
  }

  lemma TrackersBuilt(judge: Judge, t: Trackers)
    requires TrackersFit(judge, t)
    ensures Building(TrackerEntries(t), None)
    ensures Lookup(TrackerEntries(t), KeyOf(Announce)) == AnnounceValue(t)
    ensures Lookup(TrackerEntries(t), KeyOf(AnnounceList)) == AnnounceListValue(t)
    ensures Lookup(TrackerEntries(t), KeyOf(UrlList)) == UrlListValue(t)
    ensures Lookup(TrackerEntries(t), KeyOf(PieceLayers)) == None
  {
    AnnounceWellFormed(judge, t);
    PutOther([], None, Announce, AnnounceValue(t));
    var m1 := PutIf([], KeyOf(Announce), AnnounceValue(t));
    TiersWellFormed(judge, t.announceList);
    PutOther(m1, None, AnnounceList, AnnounceListValue(t));
    var m2 := PutIf(m1, KeyOf(AnnounceList), AnnounceListValue(t));
    UrlsWellFormed(judge, t);
    PutOther(m2, None, UrlList, UrlListValue(t));
    TrackerLookup(t, m1, m2, Announce);
    TrackerLookup(t, m1, m2, AnnounceList);
    TrackerLookup(t, m1, m2, UrlList);
    TrackerLookup(t, m1, m2, PieceLayers);
  }

  lemma TrackerLookup(t: Trackers, m1: seq<Entry>, m2: seq<Entry>, k: Key)
    requires m1 == PutIf([], KeyOf(Announce), AnnounceValue(t)) && SortedFrom(None, m1)
    requires m2 == PutIf(m1, KeyOf(AnnounceList), AnnounceListValue(t)) && SortedFrom(None, m2)
    ensures Lookup(TrackerEntries(t), KeyOf(k))
         == if k == Announce then AnnounceValue(t)
            else if k == AnnounceList then AnnounceListValue(t)
            else if k == UrlList then UrlListValue(t)
            else None
  {
    LookupPutIf([], Announce, AnnounceValue(t), k);
    LookupPutIf([], Announce, AnnounceValue(t), AnnounceList);
    LookupPutIf([], Announce, AnnounceValue(t), UrlList);
    LookupPutIf(m1, AnnounceList, AnnounceListValue(t), k);
    LookupPutIf(m1, AnnounceList, AnnounceListValue(t), UrlList);
    LookupPutIf(m2, UrlList, UrlListValue(t), k);
  }

  lemma PutInfo(m: seq<Entry>, info: Value)
    requires Building(m, None) && WellFormed(info)
    ensures Building(PutNew(m, KeyOf(Info), info), Some(info))
  {
    KeyFits(Info);
    PutNewKeeps(None, m, KeyOf(Info), info);
    PutNewWellFormed(m, KeyOf(Info), info);
    LookupPut(None, m, KeyOf(Info), info, KeyOf(Info));
  }

  function LayersValue(layers: Option<seq<Entry>>): Option<Value> {
    if layers.None? then None else Some(Dict(layers.value))
  }

  lemma TopLookup(info: Value, layers: Option<seq<Entry>>, t: Trackers, k: Key)
    requires SortedFrom(None, TrackerEntries(t)) && SortedFrom(None, PutNew(TrackerEntries(t), KeyOf(Info), info))
    requires k != Info && Lookup(TrackerEntries(t), KeyOf(PieceLayers)) == None
    ensures Get(Dict(TopLevel(info, layers, t)), k)
         == if k == PieceLayers then LayersValue(layers) else Lookup(TrackerEntries(t), KeyOf(k))
  {
    var m := TrackerEntries(t);
    LookupPutIf(m, Info, Some(info), k);
    LookupPutIf(m, Info, Some(info), PieceLayers);
    LookupPutIf(PutNew(m, KeyOf(Info), info), PieceLayers, LayersValue(layers), k);
  }

  /** Each field of the file is there as it was put in. */
  lemma TopLevelBuilt(judge: Judge, info: Value, layers: Option<seq<Entry>>, t: Trackers)
    requires WellFormed(info) && TrackersFit(judge, t) && LayersHeld(layers)
    ensures Building(TopLevel(info, layers, t), Some(info))
    ensures Get(Dict(TopLevel(info, layers, t)), PieceLayers) == LayersValue(layers)
    ensures ReadTrackers(judge, Dict(TopLevel(info, layers, t))) == t
  {
    TrackersBuilt(judge, t);
    PutInfo(TrackerEntries(t), info);
    PutOther(PutNew(TrackerEntries(t), KeyOf(Info), info), Some(info), PieceLayers, LayersValue(layers));
    TopLookup(info, layers, t, Announce);
    TopLookup(info, layers, t, AnnounceList);
    TopLookup(info, layers, t, UrlList);
    TopLookup(info, layers, t, PieceLayers);
    TrackersReadBack(judge, t, Dict(TopLevel(info, layers, t)));
  }

  lemma TrackersReadBack(judge: Judge, t: Trackers, top: Value)
    requires TrackersFit(judge, t) && Get(top, Announce) == AnnounceValue(t)
    requires Get(top, AnnounceList) == AnnounceListValue(t) && Get(top, UrlList) == UrlListValue(t)
    ensures ReadTrackers(judge, top) == t
  {
    AnnounceWellFormed(judge, t);
    TiersWellFormed(judge, t.announceList);
    UrlsWellFormed(judge, t);
  }

  // ---- what is saved is read back --------------------------------------------------

  lemma FileDecodes(judge: Judge, info: Value, layers: Option<seq<Entry>>, t: Trackers)
    requires WellFormed(info) && TrackersFit(judge, t) && LayersHeld(layers)
    ensures var top := Dict(TopLevel(info, layers, t));
      && Decode(Encode(top), true) == (if Nest(info) < MAX_DEPTH then Success(top) else Failure(TooDeep))
      && Get(top, Info) == Some(info)
  {
    var top := Dict(TopLevel(info, layers, t));
    TopLevelBuilt(judge, info, layers, t);
    LookupNested(top.entries, KeyOf(Info));
    DecodeEncoded(top, true);
  }

  /** What a saved torrent is read back as: its info dictionary is one level further down in the file than by itself,
      and of the layers only those that were written are there to be read. */
  lemma SavedIsRead(h: Hashes, judge: Judge, t: Torrent, layers: Option<Value>)
    requires Built(h, judge, t, layers) && WellFormed(t.info) && TrackersFit(judge, t.trackers)
    requires LayersHeld(WrittenLayers(t))
    ensures TorrentFileBytes(h, t).Some?
    ensures ParseTorrent(h, judge, TorrentFileBytes(h, t).value)
         == if Nest(t.info) >= MAX_DEPTH then Failure(Decoding(TooDeep))
            else OrRejected(BuildFromInfo(h, judge, t.info, Encode(t.info), t.trackers, LayersValue(WrittenLayers(t))))
  {
    BuiltReproduces(h, judge, t, layers);
    FileDecodes(judge, t.info, WrittenLayers(t), t.trackers);
    TopLevelBuilt(judge, t.info, WrittenLayers(t), t.trackers);
  }

  /** A torrent from a magnet link, once saved, is read back as it was exactly when its info dictionary nests less than
      100 deep; at 100 deep, which is accepted, the file is too deep to read. */
  lemma SavedReadsBack(h: Hashes, judge: Judge, raw: seq<byte>, expected: seq<byte>,
                       announce: Option<seq<byte>>, announceList: seq<seq<seq<byte>>>)
    requires FromInfoBytes(h, judge, raw, expected, announce, announceList).Success?
    requires TrackersFit(judge, Trackers(announce, announceList, []))
    ensures var t := FromInfoBytes(h, judge, raw, expected, announce, announceList).value;
      && TorrentFileBytes(h, t).Some?
      && ParseTorrent(h, judge, TorrentFileBytes(h, t).value)
         == if Nest(t.info) < MAX_DEPTH then Success(t) else Failure(Decoding(TooDeep))
  {
    FetchedIsBuilt(h, judge, raw, expected, announce, announceList);
    BareReadsBack(h, judge, FromInfoBytes(h, judge, raw, expected, announce, announceList).value);
  }

  lemma BareReadsBack(h: Hashes, judge: Judge, t: Torrent)
    requires Built(h, judge, t, None) && WellFormed(t.info) && TrackersFit(judge, t.trackers)
    ensures TorrentFileBytes(h, t).Some?
    ensures ParseTorrent(h, judge, TorrentFileBytes(h, t).value)
         == if Nest(t.info) < MAX_DEPTH then Success(t) else Failure(Decoding(TooDeep))
  {
    BareLayers(h, judge, t);
    SavedIsRead(h, judge, t, None);
  }

  lemma BareLayers(h: Hashes, judge: Judge, t: Torrent)
    requires Built(h, judge, t, None)
    ensures LayersHeld(WrittenLayers(t))
    ensures BuildFromInfo(h, judge, t.info, Encode(t.info), t.trackers, LayersValue(WrittenLayers(t))) == Some(t)
  {
    assert ParseLayers(None) == ParseLayers(Some(Dict([])));
    assert t.v2.Some? ==> t.v2.value.layers == [];
  }

  // ---- what was parsed and is saved ------------------------------------------------

  lemma {:induction false} TextsOfFit(judge: Judge, items: seq<Value>)
    requires WellFormedItems(items)
    ensures TextsFit(judge, TextsOf(judge, items))
  {
    if items != [] {
      TextsOfFit(judge, items[1..]);
    }
  }

  lemma {:induction false} TiersOfFit(judge: Judge, items: seq<Value>)
    requires WellFormedItems(items)
    ensures TiersFit(judge, TiersOf(judge, items))
  {
    if items != [] {
      TiersOfFit(judge, items[1..]);
      if items[0].List? {
        TextsOfFit(judge, items[0].items);
      }
    }
  }

  lemma FieldWellFormed(top: Value, key: Key)
    requires WellFormed(top) && Get(top, key).Some?
    ensures WellFormed(Get(top, key).value) && Nest(Get(top, key).value) < Nest(top)
  {
    LookupNested(top.entries, KeyOf(key));
  }

  lemma ReadTrackersFit(judge: Judge, top: Value)
    requires WellFormed(top)
    ensures TrackersFit(judge, ReadTrackers(judge, top))
  {
    if Get(top, Announce).Some? {
      FieldWellFormed(top, Announce);
    }
    if Get(top, AnnounceList).Some? {
      FieldWellFormed(top, AnnounceList);
      if Get(top, AnnounceList).value.List? {
        TiersOfFit(judge, Get(top, AnnounceList).value.items);
      }
    }
    if Get(top, UrlList).Some? {
      UrlsFit(judge, top);
    }
  }

  lemma UrlsFit(judge: Judge, top: Value)
    requires WellFormed(top) && Get(top, UrlList).Some?
    ensures TextsFit(judge, ReadUrls(judge, Get(top, UrlList)))
  {
    FieldWellFormed(top, UrlList);
    match Get(top, UrlList).value
    case ByteString(b) =>
      assert WellFormedItems([ByteString(b)][1..]);
      TextsOfFit(judge, [ByteString(b)]);
    case List(items) => TextsOfFit(judge, items);
    case _ =>
  }

  lemma {:induction false} LayersAreFlat(entries: seq<Entry>)
    requires forall i :: 0 <= i < |entries| ==> IsLayer(entries[i])
    ensures NestEntries(entries) == 0
  {
    if entries != [] {
      assert IsLayer(entries[0]);
      LayersAreFlat(entries[1..]);
    }
  }

  lemma ReadLayersHeld(h: Hashes, judge: Judge, top: Value, t: Torrent)
    requires WellFormed(top) && Built(h, judge, t, Get(top, PieceLayers))
    ensures LayersHeld(WrittenLayers(t))
  {
    if IsV2Only(t) && Get(top, PieceLayers).Some? {
      FieldWellFormed(top, PieceLayers);
      LayersAreFlat(t.v2.value.layers);
    }
  }

  /** The v2 part of a torrent is what it would be without layers: the torrent is v2 only, and then its layers are saved
      with it; or it has no file tree that is sound; or it is a hybrid that has no layers. */
  predicate KeptWhole(judge: Judge, t: Torrent) {
    IsV2Only(t) || !TreeSound(judge, t.info) || (t.v2.Some? && t.v2.value.layers == [])
  }

  /** A torrent parsed from a file, once saved, is read back as it was exactly when it is not a hybrid with a sound file
      tree that came with layers: those are not written, so they are lost, or, where they were no good, no longer in the
      way. */
  lemma ParsedReadsBack(h: Hashes, judge: Judge, data: seq<byte>)
    requires ParseTorrent(h, judge, data).Success?
    ensures var t := ParseTorrent(h, judge, data).value;
      && TorrentFileBytes(h, t).Some?
      && (ParseTorrent(h, judge, TorrentFileBytes(h, t).value) == Success(t) <==> KeptWhole(judge, t))
  {
    var t, layers := ParseTorrent(h, judge, data).value, Get(Decode(data, true).value, PieceLayers);
    ParsedIsHeld(h, judge, data);
    SavedIsRead(h, judge, t, layers);
    SavedV2(h, judge, t, layers);
  }

  lemma ParsedIsHeld(h: Hashes, judge: Judge, data: seq<byte>)
    requires ParseTorrent(h, judge, data).Success?
    ensures var t := ParseTorrent(h, judge, data).value;
      && Built(h, judge, t, Get(Decode(data, true).value, PieceLayers))
      && WellFormed(t.info) && Nest(t.info) < MAX_DEPTH && TrackersFit(judge, t.trackers)
      && LayersHeld(WrittenLayers(t))
  {
    var t, top := ParseTorrent(h, judge, data).value, Decode(data, true).value;
    DecodeStrict(data, top);
    ParsedIsBuilt(h, judge, data);
    FieldWellFormed(top, Info);
    ReadTrackersFit(judge, top);
    ReadLayersHeld(h, judge, top, t);
  }

  lemma SavedV2(h: Hashes, judge: Judge, t: Torrent, layers: Option<Value>)
    requires Built(h, judge, t, layers) && LayersHeld(WrittenLayers(t))
    ensures BuildFromInfo(h, judge, t.info, Encode(t.info), t.trackers, LayersValue(WrittenLayers(t))) == Some(t)
       <==> KeptWhole(judge, t)
  {
    if TreeSound(judge, t.info) {
      NoLayersFit(TreeHasher(h), judge, t.info);
    }
  }
}
