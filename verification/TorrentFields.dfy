/** The fields of a torrent's metadata (src/torrent.rs, src/v2.rs): the keys that are read, and what is read under
    them. */
module TorrentFields {
  import opened Numbers
  import opened Bytes
  import opened Bencode
  import opened Torrents

  /** What is decided elsewhere: whether bytes are UTF-8 text, and whether a name is one plain path component. */
  datatype Judge = Judge(text: seq<byte> -> bool, safe: seq<byte> -> bool)

  /** The keys that are read or written, and one that is neither. */
  datatype Key =
    | Announce | AnnounceList | UrlList | Info | PieceLayers
    | MetaVersion | FileTree | Pieces | PiecesRoot | PieceLength | Name | Length | Files | Path | Other

  function KeyOf(key: Key): seq<byte> {
    match key
    case Announce => Ascii("announce")
    case AnnounceList => Ascii("announce-list")
    case UrlList => Ascii("url-list")
    case Info => Ascii("info")
    case PieceLayers => Ascii("piece layers")
    case MetaVersion => Ascii("meta version")
    case FileTree => Ascii("file tree")
    case Pieces => Ascii("pieces")
    case PiecesRoot => Ascii("pieces root")
    case PieceLength => Ascii("piece length")
    case Name => Ascii("name")
    case Length => Ascii("length")
    case Files => Ascii("files")
    case Path => Ascii("path")
    case Other => Ascii("x")
  }

  lemma KeysDiffer(a: Key, b: Key)
    requires a != b
    ensures KeyOf(a) != KeyOf(b)
  {
    assert KeyOf(Announce)[0] != KeyOf(UrlList)[0] && KeyOf(Pieces)[0] != KeyOf(Length)[0];
    assert KeyOf(Info)[0] != KeyOf(Name)[0] && KeyOf(Info)[0] != KeyOf(Path)[0] && KeyOf(Name)[0] != KeyOf(Path)[0];
    assert KeyOf(PieceLayers)[0] != KeyOf(MetaVersion)[0] && KeyOf(PieceLength)[0] != KeyOf(MetaVersion)[0];
    assert KeyOf(PieceLayers)[7] != KeyOf(PieceLength)[7];
  }

  lemma KeyFits(key: Key)
    ensures |KeyOf(key)| <= I64_MAX
  {
  }

  function Get(v: Value, key: Key): Option<Value> {
    if v.Dict? then Lookup(v.entries, KeyOf(key)) else None
  }

  function IntOf(v: Option<Value>): Option<int> {
    match v
    case Some(Int(i)) => Some(i)
    case _ => None
  }

  function TextOf(judge: Judge, v: Value): Option<seq<byte>> {
    if v.ByteString? && judge.text(v.b) then Some(v.b) else None
  }

  /** The texts of a list; whatever else is in it is passed over. */
  function TextsOf(judge: Judge, items: seq<Value>): seq<seq<byte>> {
    if items == [] then []
    else
      var rest := TextsOf(judge, items[1..]);
      match TextOf(judge, items[0])
      case Some(b) => [b] + rest
      case None => rest
  }
}
