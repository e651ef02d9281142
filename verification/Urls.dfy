/** Where a mirror has a torrent's files (BEP 19, src/webseed.rs). Text is its UTF-8 bytes. */
module Urls {
  import opened Numbers
  import opened Bytes

  const SLASH: byte := 47
  const PERCENT: byte := 37

  // ---- encode_segment --------------------------------------------------------------

  /** The characters a segment may hold as they are: letters, digits, `-`, `.`, `_` and `~`. */
  predicate Unreserved(b: byte) {
    65 <= b <= 90 || 97 <= b <= 122 || 48 <= b <= 57 || b == 45 || b == 46 || b == 95 || b == 126
  }

  /** A hexadecimal digit, upper case. */
  function HexDigit(n: nat): byte
    requires n < 16
  {
    if n < 10 then 48 + n else 55 + n
  }

  function HexValue(b: byte): nat {
    if b < 65 then Max(b - 48, 0) % 16 else (b - 55) % 16
  }

  function EncodeByte(b: byte): seq<byte> {
    if Unreserved(b) then [b] else [PERCENT, HexDigit(b / 16), HexDigit(b % 16)]
  }

  function EncodeSegment(segment: seq<byte>): seq<byte> {
    if segment == [] then [] else EncodeByte(segment[0]) + EncodeSegment(segment[1..])
  }

  method PercentEncode(segment: seq<byte>) returns (out: seq<byte>)
    ensures out == EncodeSegment(segment)
  {
    out := [];
    for i := 0 to |segment|
      invariant out + EncodeSegment(segment[i..]) == EncodeSegment(segment)
    {
      assert segment[i..][1..] == segment[i + 1..];
      Assoc3(out, EncodeByte(segment[i]), EncodeSegment(segment[i + 1..]));
      out := out + EncodeByte(segment[i]);
    }
  }

  /** Percent-decoding, of what is well formed. */
  function DecodeSegment(s: seq<byte>): seq<byte> {
    if s == [] then []
    else if s[0] == PERCENT && |s| >= 3 then [(16 * HexValue(s[1]) + HexValue(s[2])) % 256] + DecodeSegment(s[3..])
    else [s[0]] + DecodeSegment(s[1..])
  }

  lemma ByteDecodes(b: byte, rest: seq<byte>)
    ensures DecodeSegment(EncodeByte(b) + rest) == [b] + DecodeSegment(rest)
  {
    var e := EncodeByte(b);
    assert (e + rest)[|e|..] == rest;
    HexReadsBack(b);
  }

  lemma HexReadsBack(b: byte)
    ensures 16 * HexValue(HexDigit(b / 16)) + HexValue(HexDigit(b % 16)) == b
  {
    assert HexValue(HexDigit(b / 16)) == b / 16 && HexValue(HexDigit(b % 16)) == b % 16;
  }

  /** A segment is decoded back. */
  lemma {:induction false} SegmentDecodes(segment: seq<byte>)
    ensures DecodeSegment(EncodeSegment(segment)) == segment
  {
    if segment != [] {
      SegmentDecodes(segment[1..]);
      ByteDecodes(segment[0], EncodeSegment(segment[1..]));
      assert segment == [segment[0]] + segment[1..];
    }
  }

  lemma {:induction false} NoSlash(segment: seq<byte>)
    ensures SLASH !in EncodeSegment(segment)
  {
    if segment != [] {
      NoSlash(segment[1..]);
      assert SLASH !in EncodeByte(segment[0]);
    }
  }

  // ---- a file's URL ----------------------------------------------------------------

  /** The path under the torrent's name. */
  function PathUrl(path: seq<seq<byte>>): seq<byte> {
    if path == [] then [] else [SLASH] + EncodeSegment(path[0]) + PathUrl(path[1..])
  }

  predicate EndsInSlash(url: seq<byte>) {
    url != [] && url[|url| - 1] == SLASH
  }

  /** One file is at the base itself, or under it by the torrent's name if the base is a directory; the files of a
      multi-file torrent are always under the name. */
  function FileUrl(base: seq<byte>, name: seq<byte>, path: seq<seq<byte>>, multi: bool): seq<byte> {
    if multi then base + (if EndsInSlash(base) then [] else [SLASH]) + EncodeSegment(name) + PathUrl(path)
    else if EndsInSlash(base) then base + EncodeSegment(name)
    else base
  }

  method BuildUrl(base: seq<byte>, name: seq<byte>, path: seq<seq<byte>>, multi: bool) returns (url: seq<byte>)
    ensures url == FileUrl(base, name, path, multi)
  {
    url := base;
    if multi {
      if !EndsInSlash(url) {
        url := url + [SLASH];
      }
      var segment := PercentEncode(name);
      url := url + segment;
      ghost var before := url;
      for i := 0 to |path|
        invariant url + PathUrl(path[i..]) == before + PathUrl(path)
      {
        assert path[i..][1..] == path[i + 1..];
        segment := PercentEncode(path[i]);
        Assoc3(url, [SLASH] + segment, PathUrl(path[i + 1..]));
        Assoc3(url, [SLASH], segment);
        url := url + [SLASH] + segment;
      }
      assert base + [] == base;
    } else if EndsInSlash(base) {
      var segment := PercentEncode(name);
      url := base + segment;
    }
  }

  /** Two stretches without a slash, each followed by nothing or by a slash, are the same if the whole is. */
  lemma UpToSlash(a: seq<byte>, x: seq<byte>, b: seq<byte>, y: seq<byte>)
    requires SLASH !in a && SLASH !in b && a + x == b + y
    requires (x == [] || x[0] == SLASH) && (y == [] || y[0] == SLASH)
    ensures a == b && x == y
  {
    var s := a + x;
    assert forall i :: 0 <= i < |a| ==> s[i] == a[i] && a[i] in a;
    assert forall i :: 0 <= i < |b| ==> (b + y)[i] == b[i] && b[i] in b;
    assert (|a| < |s| ==> s[|a|] == SLASH) && (|b| < |s| ==> s[|b|] == SLASH);
    assert a == (a + x)[..|a|] && b == (b + y)[..|b|];
    assert x == (a + x)[|a|..] && y == (b + y)[|b|..];
  }

  lemma {:induction false} PathsDiffer(p: seq<seq<byte>>, q: seq<seq<byte>>)
    requires PathUrl(p) == PathUrl(q)
    ensures p == q
    decreases |p|
  {
    if p != [] && q != [] {
      var a, x, b, y := EncodeSegment(p[0]), PathUrl(p[1..]), EncodeSegment(q[0]), PathUrl(q[1..]);
      Assoc3([SLASH], a, x);
      Assoc3([SLASH], b, y);
      TailOf(SLASH, a + x);
      TailOf(SLASH, b + y);
      NoSlash(p[0]);
      NoSlash(q[0]);
      UpToSlash(a, x, b, y);
      SegmentDecodes(p[0]);
      SegmentDecodes(q[0]);
      PathsDiffer(p[1..], q[1..]);
      assert p == [p[0]] + p[1..] && q == [q[0]] + q[1..];
    }
  }

  /** Two files of a torrent have one URL only if they have one path. */
  lemma UrlTellsPath(base: seq<byte>, name: seq<byte>, p: seq<seq<byte>>, q: seq<seq<byte>>)
    requires FileUrl(base, name, p, true) == FileUrl(base, name, q, true)
    ensures p == q
  {
    var front := base + (if EndsInSlash(base) then [] else [SLASH]) + EncodeSegment(name);
    assert PathUrl(p) == (front + PathUrl(p))[|front|..];
    assert PathUrl(q) == (front + PathUrl(q))[|front|..];
    PathsDiffer(p, q);
  }

  // ---- what a URL says ---------------------------------------------------------------

  /** RFC 3986, section 2.3. */
  lemma UnreservedIs(b: byte)
    ensures var c := b as char;
      Unreserved(b)
      <==> 'A' <= c <= 'Z' || 'a' <= c <= 'z' || '0' <= c <= '9' || c == '-' || c == '.' || c == '_' || c == '~'
  {
  }

  lemma HexDigitIs(n: nat)
    requires n < 16
    ensures HexDigit(n) as char == "0123456789ABCDEF"[n]
  {
  }

  /** Where the first slash is, or the end. */
  function FirstSlash(s: seq<byte>): (n: nat)
    ensures n <= |s| && (n < |s| ==> s[n] == SLASH)
  {
    if s == [] || s[0] == SLASH then 0 else 1 + FirstSlash(s[1..])
  }

  /** The segments between slashes, decoded. */
  function ReadSegments(s: seq<byte>): seq<seq<byte>>
    decreases |s|
  {
    var n := FirstSlash(s);
    if n == |s| then [DecodeSegment(s)] else [DecodeSegment(s[..n])] + ReadSegments(s[n + 1..])
  }

  lemma {:induction false} FirstSlashOf(a: seq<byte>, rest: seq<byte>)
    requires SLASH !in a && (rest == [] || rest[0] == SLASH)
    ensures FirstSlash(a + rest) == |a|
  {
    if a == [] {
      assert a + rest == rest;
    } else {
      assert (a + rest)[1..] == a[1..] + rest && a[0] in a;
      FirstSlashOf(a[1..], rest);
    }
  }

  lemma LastRead(a: seq<byte>)
    requires SLASH !in a
    ensures ReadSegments(a) == [DecodeSegment(a)]
  {
    FirstSlashOf(a, []);
    assert a + [] == a;
  }

  lemma FirstRead(a: seq<byte>, rest: seq<byte>)
    requires SLASH !in a
    ensures ReadSegments(a + ([SLASH] + rest)) == [DecodeSegment(a)] + ReadSegments(rest)
  {
    var s := a + ([SLASH] + rest);
    FirstSlashOf(a, [SLASH] + rest);
    assert s[..|a|] == a && s[|a| + 1..] == rest;
  }

  lemma {:induction false} SegmentsRead(name: seq<byte>, path: seq<seq<byte>>)
    ensures ReadSegments(EncodeSegment(name) + PathUrl(path)) == [name] + path
    decreases |path|
  {
    var a := EncodeSegment(name);
    SegmentDecodes(name);
    NoSlash(name);
    if path == [] {
      LastRead(a);
      assert a + [] == a && [name] + path == [name];
    } else {
      var rest := EncodeSegment(path[0]) + PathUrl(path[1..]);
      Assoc3([SLASH], EncodeSegment(path[0]), PathUrl(path[1..]));
      FirstRead(a, rest);
      SegmentsRead(path[0], path[1..]);
      assert path == [path[0]] + path[1..];
    }
  }

  /** The URL of a file of many is the base, one slash, and segments that read as the torrent's name and then the
      path. */
  lemma UrlOfMany(base: seq<byte>, name: seq<byte>, path: seq<seq<byte>>)
    ensures var url, at := FileUrl(base, name, path, true), if EndsInSlash(base) then |base| else |base| + 1;
      base <= url && at <= |url| && url[at - 1] == SLASH && ReadSegments(url[at..]) == [name] + path
  {
    var front := base + (if EndsInSlash(base) then [] else [SLASH]);
    var back := EncodeSegment(name) + PathUrl(path);
    Assoc3(front, EncodeSegment(name), PathUrl(path));
    assert (front + back)[|front|..] == back && (front + back)[..|base|] == base;
    SegmentsRead(name, path);
  }

  /** That of a single file is the base, with the name after it if the base is a directory. */
  lemma UrlOfOne(base: seq<byte>, name: seq<byte>, path: seq<seq<byte>>)
    ensures !EndsInSlash(base) ==> FileUrl(base, name, path, false) == base
    ensures EndsInSlash(base) ==>
      base <= FileUrl(base, name, path, false) && DecodeSegment(FileUrl(base, name, path, false)[|base|..]) == name
  {
    SegmentDecodes(name);
    assert (base + EncodeSegment(name))[|base|..] == EncodeSegment(name);
  }
}
