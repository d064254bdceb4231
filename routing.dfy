/** `Handler.process`: the answer the server gives to a HEAD or GET request.
    The decision is a function of the request path, the Range header, the
    secret, a snapshot of the share registry and what the file system says
    about the shared paths; only whether a body is written depends on the
    method. The writing itself is the method Serve. */
module Routing {
  import opened Strings
  import Utf8
  import Percent
  import Index
  import Ranges
  import NaturalSort
  import Registry

  type byte = Utf8.byte

  /** What the handler reads of a request: its path and its Range header, if any. */
  datatype Request = Request(path: string, range: Option<string>)

  /** What the file system says about a path: whether it is a regular file,
      the size `getsize` reports, the `Last-Modified` text formatted from its
      modification time, and the bytes a read of it yields. */
  datatype FileInfo = FileInfo(isFile: bool, size: nat, lastModified: string, data: seq<byte>)

  /** What follows the headers: nothing, the standard library's error page,
      a fixed byte string, the whole file at a path, or `length` bytes of it
      starting at `first`. */
  datatype Body =
    | NoBody
    | ErrorPage
    | Bytes(bytes: seq<byte>)
    | WholeFile(path: string)
    | FileRange(path: string, first: nat, length: nat)

  type Header = (string, string)

  datatype Response = Response(status: nat, headers: seq<Header>, body: Body)

  const OK: nat := 200
  const PartialContent: nat := 206
  const Forbidden: nat := 403
  const NotFound: nat := 404
  const RangeNotSatisfiable: nat := 416

  const RobotsPath: string := "/robots.txt"
  const RobotsText: string := "User-agent: *\r\nDisallow: /\r\n"
  /** The bytes literal the handler sends for "/robots.txt": RobotsText in ASCII. */
  const RobotsBytes: seq<byte> :=
    [85, 115, 101, 114, 45, 97, 103, 101, 110, 116, 58, 32, 42, 13, 10,
     68, 105, 115, 97, 108, 108, 111, 119, 58, 32, 47, 13, 10]
  const TextType: Header := ("Content-type", "text/plain; charset=utf-8")
  const HtmlType: Header := ("Content-type", "text/html; charset=utf-8")
  const AcceptRanges: Header := ("Accept-Ranges", "bytes")

  function ContentLength(n: nat): Header
  {
    ("Content-Length", DecimalString(n))
  }

  /** `send_error(code)`: the headers and page are the standard library's; the
      page is written for GET and not for HEAD. */
  function Error(status: nat, sendBody: bool): Response
  {
    Response(status, [], if sendBody then ErrorPage else NoBody)
  }

  /** A fixed document: its type, its length and, for GET, its bytes. */
  function Document(contentType: Header, bytes: seq<byte>, sendBody: bool): Response
  {
    Response(OK, [contentType, ContentLength(|bytes|)], if sendBody then Bytes(bytes) else NoBody)
  }

  /** The name a file path asks for: the percent-decoded text after its last '/'. */
  function RequestedName(path: string): string
  {
    Percent.Unquote(LastSegment(path))
  }

  /** The registry maps the name to a non-empty path naming a regular file. */
  predicate IsShared(name: string, shares: map<string, string>, fs: map<string, FileInfo>)
  {
    name in shares && shares[name] != "" && shares[name] in fs && fs[shares[name]].isFile
  }

  /** The answer to "/robots.txt". */
  function Robots(sendBody: bool): Response
  {
    Document(TextType, RobotsBytes, sendBody)
  }

  /** The answer to "/<secret>/": the listing of the registry's names. */
  function Listing(secret: string, names: seq<string>, sendBody: bool): (r: Response)
    ensures r.status == OK && r.headers != [] && r.headers[0] == HtmlType
  {
    Document(HtmlType, Utf8.Encode(Index.MakeIndex(secret, names)), sendBody)
  }

  /** The answer to a parsed Range header for a shared, non-empty file at `path`. */
  function RangeResponse(path: string, file: FileInfo, spec: Option<Ranges.RangeSpec>, sendBody: bool): Response
  {
    match Ranges.CheckRange(spec, file.size)
    case None => Error(RangeNotSatisfiable, sendBody)
    case Some((first, last)) =>
      Response(PartialContent,
               [("Content-Range", Ranges.ContentRange(first, last, file.size)),
                ContentLength(last - first + 1), ("Last-Modified", file.lastModified), AcceptRanges],
               if sendBody then FileRange(path, first, last - first + 1) else NoBody)
  }

  /** The answer to a request for a shared, non-empty file at `path` without a Range header. */
  function WholeResponse(path: string, file: FileInfo, sendBody: bool): Response
  {
    Response(OK, [ContentLength(file.size), ("Last-Modified", file.lastModified), AcceptRanges],
             if sendBody then WholeFile(path) else NoBody)
  }

  /** The answer to a request for the shared file `name`. */
  function FileResponse(name: string, range: Option<string>, shares: map<string, string>,
                        fs: map<string, FileInfo>, sendBody: bool): (r: Response)
    ensures r.status != Forbidden
    ensures r.headers == [] || r.headers[0] != HtmlType
  {
    if !IsShared(name, shares, fs) || fs[shares[name]].size == 0 then Error(NotFound, sendBody)
    else
      match range
      case Some(header) => RangeResponse(shares[name], fs[shares[name]], Ranges.ParseRange(header), sendBody)
      case None => WholeResponse(shares[name], fs[shares[name]], sendBody)
  }

  /** Which of the handler's cases a path falls in, tested in the handler's order. */
  datatype Target = RobotsFile | Outside | ListingPage | SharedFile(name: string)

  function Classify(path: string, secret: string): Target
  {
    if path == RobotsPath then RobotsFile
    else if !StartsWith(path, Index.Directory(secret)) then Outside
    else if path == Index.Directory(secret) then ListingPage
    else SharedFile(RequestedName(path))
  }

  /** The answer for each case: 403 is given for the paths outside the
      directory and only for them, and only the listing carries the handler's
      own text/html Content-type. */
  function Answer(target: Target, range: Option<string>, secret: string, names: seq<string>,
                  shares: map<string, string>, fs: map<string, FileInfo>, sendBody: bool): (r: Response)
    ensures r.status == Forbidden <==> target == Outside
    ensures r.headers != [] && r.headers[0] == HtmlType <==> target == ListingPage
  {
    match target
    case RobotsFile => Robots(sendBody)
    case Outside => Error(Forbidden, sendBody)
    case ListingPage => Listing(secret, names, sendBody)
    case SharedFile(name) => FileResponse(name, range, shares, fs, sendBody)
  }

  /** `process(send_body)` for one request. `names` is `list(shares.keys())`. */
  function Route(req: Request, secret: string, names: seq<string>, shares: map<string, string>,
                 fs: map<string, FileInfo>, sendBody: bool): Response
  {
    Answer(Classify(req.path, secret), req.range, secret, names, shares, fs, sendBody)
  }

  /** The bytes the handler writes after the headers for a body. */
  function Transmitted(body: Body, fs: map<string, FileInfo>): seq<byte>
  {
    match body
    case NoBody => []
    case ErrorPage => []
    case Bytes(bytes) => bytes
    case WholeFile(path) => if path in fs then fs[path].data else []
    case FileRange(path, first, length) =>
      if path in fs then Ranges.Slice(fs[path].data, first, first + length) else []
  }

  /** Answers a request and writes its body: the whole file is copied as it
      stands, a range is copied by the chunked loop. */
  method Serve(req: Request, secret: string, names: seq<string>, shares: map<string, string>,
               fs: map<string, FileInfo>, sendBody: bool)
    returns (resp: Response, written: seq<byte>)
    ensures resp == Route(req, secret, names, shares, fs, sendBody)
    ensures written == Transmitted(resp.body, fs)
    ensures resp.body.FileRange? ==> |written| <= resp.body.length
  {
    resp := Route(req, secret, names, shares, fs, sendBody);
    match resp.body {
      case NoBody => written := [];
      case ErrorPage => written := [];
      case Bytes(bytes) => written := bytes;
      case WholeFile(path) =>
        written := if path in fs then fs[path].data else [];
      case FileRange(path, first, length) =>
        if path in fs {
          var chunks;
          written, chunks := Ranges.StreamRange(fs[path].data, first, length);
          Ranges.SliceBounds(fs[path].data, first, first + length);
        } else {
          written := [];
        }
    }
  }

  /** The first value of a header in a response. */
  function HeaderValue(headers: seq<Header>, name: string): Option<string>
  {
    if headers == [] then None
    else if headers[0].0 == name then Some(headers[0].1)
    else HeaderValue(headers[1..], name)
  }

  /** "/robots.txt" is answered alike whatever the secret, the registry or
      the Range header: 200 with the 28-byte disallow-all text. */
  lemma RobotsAlways(range: Option<string>, secret: string, names: seq<string>, shares: map<string, string>,
                     fs: map<string, FileInfo>, sendBody: bool)
    ensures var resp := Route(Request(RobotsPath, range), secret, names, shares, fs, sendBody);
      && resp.status == OK
      && resp.headers == [TextType, ContentLength(28)]
      && resp.body == (if sendBody then Bytes(RobotsBytes) else NoBody)
    ensures |RobotsBytes| == |RobotsText| == 28
    ensures forall i :: 0 <= i < 28 ==> RobotsBytes[i] as int == RobotsText[i] as int
  {
  }

  /** No path under the listing's directory is "/robots.txt": that path has no
      second '/'. */
  lemma NotRobots(path: string, secret: string)
    requires StartsWith(path, Index.Directory(secret))
    ensures path != RobotsPath
  {
    var k := |secret| + 1;
    assert path[k] == Index.Directory(secret)[k] == '/';
    assert forall i :: 1 <= i < |RobotsPath| ==> RobotsPath[i] != '/';
  }

  /** Paths under the listing's directory are the listing itself or a
      request for the file named by the decoded last segment; every other
      path but "/robots.txt" is outside. */
  lemma ClassifyPath(path: string, secret: string)
    ensures Classify(path, secret) == RobotsFile <==> path == RobotsPath
    ensures Classify(path, secret) == Outside <==> path != RobotsPath && !StartsWith(path, Index.Directory(secret))
    ensures Classify(path, secret) == ListingPage <==> path == Index.Directory(secret)
    ensures Classify(path, secret).SharedFile? <==> StartsWith(path, Index.Directory(secret)) && path != Index.Directory(secret)
    ensures Classify(path, secret).SharedFile? ==> Classify(path, secret).name == RequestedName(path)
  {
    var directory := Index.Directory(secret);
    if StartsWith(path, directory) {
      NotRobots(path, secret);
    }
    if path == directory {
      assert path[..|directory|] == directory;
    }
  }

  /** Every request other than "/robots.txt" whose path is outside the
      listing's directory is refused with 403, and only those. */
  lemma ForbiddenIff(req: Request, secret: string, names: seq<string>, shares: map<string, string>,
                     fs: map<string, FileInfo>, sendBody: bool)
    requires req.path != RobotsPath
    ensures Route(req, secret, names, shares, fs, sendBody).status == Forbidden
      <==> !StartsWith(req.path, Index.Directory(secret))
  {
    ClassifyPath(req.path, secret);
  }

  /** The listing is served exactly at "/<secret>/"; its body is the UTF-8
      encoding of `make_index` over `list(shares.keys())`, and decodes back to
      it; its links read back as the shared names in natural-sort order, each
      shared name exactly once. */
  lemma IndexIff(req: Request, secret: string, names: seq<string>, shares: map<string, string>,
                 fs: map<string, FileInfo>, sendBody: bool)
    requires Registry.Consistent(names, shares)
    ensures var resp := Route(req, secret, names, shares, fs, sendBody);
      resp.headers != [] && resp.headers[0] == HtmlType <==> req.path == Index.Directory(secret)
    ensures var resp := Route(req, secret, names, shares, fs, sendBody);
      req.path == Index.Directory(secret) && sendBody ==>
        && resp.status == OK && resp.body.Bytes?
        && Utf8.Decode(resp.body.bytes) == Index.MakeIndex(secret, names)
        && Index.ParseIndex(Index.Directory(secret), Utf8.Decode(resp.body.bytes))
           == Some(Index.Links(NaturalSort.NaturalSort(names)))
    ensures multiset(NaturalSort.NaturalSort(names)) == multiset(shares.Keys)
  {
    ClassifyPath(req.path, secret);
    if req.path == Index.Directory(secret) {
      Utf8.DecodeEncode(Index.MakeIndex(secret, names));
    }
    Index.MakeIndexLinks(secret, names);
    Registry.KeysOnce(names, shares);
  }

  /** Every other path inside the directory asks for the file named by its
      percent-decoded last segment. */
  lemma FileRequest(req: Request, secret: string, names: seq<string>, shares: map<string, string>,
                    fs: map<string, FileInfo>, sendBody: bool)
    requires StartsWith(req.path, Index.Directory(secret)) && req.path != Index.Directory(secret)
    ensures Route(req, secret, names, shares, fs, sendBody)
         == FileResponse(Percent.Unquote(LastSegment(req.path)), req.range, shares, fs, sendBody)
  {
    ClassifyPath(req.path, secret);
  }

  /** A request for a file is refused with 404 exactly when the name is not
      shared, its path is empty or not a regular file, or the file is empty. */
  lemma NotFoundIff(name: string, range: Option<string>, shares: map<string, string>,
                    fs: map<string, FileInfo>, sendBody: bool)
    ensures FileResponse(name, range, shares, fs, sendBody).status == NotFound
      <==> !IsShared(name, shares, fs) || fs[shares[name]].size == 0
  {
  }

  /** For a file of `size` bytes, a Range header gets 206 exactly when it
      parses, its first byte is in the file and its last byte (the file's last
      when absent) is in the file and not before the first; otherwise 416,
      including for a header that does not parse. A 206 carries
      "bytes first-last/size" and the interval's length, and copies that interval. */
  lemma RangeResponseIff(path: string, file: FileInfo, spec: Option<Ranges.RangeSpec>, sendBody: bool)
    requires file.size > 0
    ensures var resp := RangeResponse(path, file, spec, sendBody);
      var last := if spec.Some? && spec.value.last.Some? then spec.value.last.value else file.size - 1;
      && (resp.status == PartialContent || resp.status == RangeNotSatisfiable)
      && (resp.status == PartialContent <==> spec.Some? && spec.value.first <= last < file.size)
      && (resp.status == PartialContent ==>
            && resp.headers[0] == ("Content-Range", Ranges.ContentRange(spec.value.first, last, file.size))
            && resp.headers[1] == ContentLength(last - spec.value.first + 1)
            && (sendBody ==> resp.body == FileRange(path, spec.value.first, last - spec.value.first + 1)))
  {
    Ranges.CheckRangeIff(spec, file.size);
  }

  /** A shared, non-empty file asked for with a Range header is answered by
      the range decision (RangeResponseIff) on the parsed header. */
  lemma RangeRequest(name: string, header: string, shares: map<string, string>,
                     fs: map<string, FileInfo>, sendBody: bool)
    requires IsShared(name, shares, fs) && fs[shares[name]].size > 0
    ensures FileResponse(name, Some(header), shares, fs, sendBody)
         == RangeResponse(shares[name], fs[shares[name]], Ranges.ParseRange(header), sendBody)
  {
  }

  /** Without a Range header a shared, non-empty file is sent whole with 200. */
  lemma FullFile(name: string, shares: map<string, string>, fs: map<string, FileInfo>, sendBody: bool)
    requires IsShared(name, shares, fs) && fs[shares[name]].size > 0
    ensures var resp := FileResponse(name, None, shares, fs, sendBody);
      var file := fs[shares[name]];
      && resp.status == OK
      && resp.headers == [ContentLength(file.size), ("Last-Modified", file.lastModified), AcceptRanges]
      && (sendBody ==> Transmitted(resp.body, fs) == file.data)
  {
  }

  /** "Range: bytes=0-" gets the same bytes as a request without a Range
      header: 206 instead of 200, the same Content-Length, and a body that is
      the whole file. */
  lemma OpenRangeSameBytes(name: string, shares: map<string, string>, fs: map<string, FileInfo>)
    requires IsShared(name, shares, fs) && fs[shares[name]].size > 0
    requires |fs[shares[name]].data| == fs[shares[name]].size
    ensures var ranged := FileResponse(name, Some("bytes=0-"), shares, fs, true);
      var whole := FileResponse(name, None, shares, fs, true);
      && ranged.status == PartialContent && whole.status == OK
      && ranged.headers[1] == whole.headers[0]
      && Transmitted(ranged.body, fs) == Transmitted(whole.body, fs) == fs[shares[name]].data
  {
    var path := shares[name];
    var spec := Ranges.ParseRange("bytes=0-");
    Ranges.OpenRangeWholeFile(fs[path].size);
    RangeRequest(name, "bytes=0-", shares, fs, true);
    WholeRange(path, fs, spec);
    FullFile(name, shares, fs, true);
    var ranged := FileResponse(name, Some("bytes=0-"), shares, fs, true);
    assert ranged == RangeResponse(path, fs[path], spec, true);
    assert Transmitted(ranged.body, fs) == fs[path].data;
  }

  /** A range decided as the whole file answers 206 with the file's size as
      Content-Length and the whole file as body. */
  lemma WholeRange(path: string, fs: map<string, FileInfo>, spec: Option<Ranges.RangeSpec>)
    requires path in fs && fs[path].size > 0 && |fs[path].data| == fs[path].size
    requires Ranges.CheckRange(spec, fs[path].size) == Some((0, fs[path].size - 1))
    ensures var resp := RangeResponse(path, fs[path], spec, true);
      && resp.status == PartialContent
      && resp.headers[1] == ContentLength(fs[path].size)
      && Transmitted(resp.body, fs) == fs[path].data
  {
    var data := fs[path].data;
    Ranges.SliceBounds(data, 0, |data|);
    assert data[0..|data|] == data;
  }

  lemma RangeHeadLikeGet(path: string, file: FileInfo, spec: Option<Ranges.RangeSpec>)
    ensures var get := RangeResponse(path, file, spec, true);
      var head := RangeResponse(path, file, spec, false);
      get.status == head.status && get.headers == head.headers && head.body == NoBody
  {
  }

  lemma FileHeadLikeGet(name: string, range: Option<string>, shares: map<string, string>, fs: map<string, FileInfo>)
    ensures var get := FileResponse(name, range, shares, fs, true);
      var head := FileResponse(name, range, shares, fs, false);
      get.status == head.status && get.headers == head.headers && head.body == NoBody
  {
    if IsShared(name, shares, fs) && fs[shares[name]].size != 0 && range.Some? {
      RangeHeadLikeGet(shares[name], fs[shares[name]], Ranges.ParseRange(range.value));
    }
  }

  /** HEAD and GET get the same status and headers; HEAD gets no body. */
  lemma HeadLikeGet(req: Request, secret: string, names: seq<string>, shares: map<string, string>,
                    fs: map<string, FileInfo>)
    ensures var get := Route(req, secret, names, shares, fs, true);
      var head := Route(req, secret, names, shares, fs, false);
      get.status == head.status && get.headers == head.headers && head.body == NoBody
  {
    var target := Classify(req.path, secret);
    if target.SharedFile? {
      FileHeadLikeGet(target.name, req.range, shares, fs);
    }
  }

  /** Content-Length is right for a range: the file holds the whole interval. */
  lemma RangeContentLength(path: string, file: FileInfo, spec: Option<Ranges.RangeSpec>, fs: map<string, FileInfo>)
    requires path in fs && fs[path] == file && |file.data| == file.size
    ensures var resp := RangeResponse(path, file, spec, true);
      resp.status == PartialContent ==>
        HeaderValue(resp.headers, "Content-Length") == Some(DecimalString(|Transmitted(resp.body, fs)|))
  {
    var resp := RangeResponse(path, file, spec, true);
    if resp.status == PartialContent {
      Ranges.SliceBounds(file.data, resp.body.first, resp.body.first + resp.body.length);
    }
  }

  lemma FileContentLength(name: string, range: Option<string>, shares: map<string, string>, fs: map<string, FileInfo>)
    requires forall p :: p in fs ==> |fs[p].data| == fs[p].size
    ensures var resp := FileResponse(name, range, shares, fs, true);
      resp.status == OK || resp.status == PartialContent ==>
        HeaderValue(resp.headers, "Content-Length") == Some(DecimalString(|Transmitted(resp.body, fs)|))
  {
    if IsShared(name, shares, fs) && fs[shares[name]].size != 0 && range.Some? {
      RangeContentLength(shares[name], fs[shares[name]], Ranges.ParseRange(range.value), fs);
    }
  }

  lemma DocumentContentLength(contentType: Header, bytes: seq<byte>, fs: map<string, FileInfo>)
    requires contentType.0 != "Content-Length"
    ensures var resp := Document(contentType, bytes, true);
      HeaderValue(resp.headers, "Content-Length") == Some(DecimalString(|Transmitted(resp.body, fs)|))
  {
  }

  /** For a file whose contents are as long as its reported size, every
      successful GET writes exactly as many bytes as its Content-Length says. */
  lemma ContentLengthExact(req: Request, secret: string, names: seq<string>, shares: map<string, string>,
                           fs: map<string, FileInfo>)
    requires forall p :: p in fs ==> |fs[p].data| == fs[p].size
    ensures var resp := Route(req, secret, names, shares, fs, true);
      resp.status == OK || resp.status == PartialContent ==>
        HeaderValue(resp.headers, "Content-Length") == Some(DecimalString(|Transmitted(resp.body, fs)|))
  {
    var target := Classify(req.path, secret);
    match target {
      case RobotsFile => DocumentContentLength(TextType, RobotsBytes, fs);
      case Outside =>
      case ListingPage => DocumentContentLength(HtmlType, Utf8.Encode(Index.MakeIndex(secret, names)), fs);
      case SharedFile(name) => FileContentLength(name, req.range, shares, fs);
    }
  }

  lemma SegmentOf(directory: string, dirs: string, name: string, secret: string)
    requires directory == Index.Directory(secret)
    requires name != [] && '/' !in name
    ensures StartsWith(directory + (dirs + ("/" + name)), directory)
    ensures StartsWith(directory + name, directory)
    ensures directory + (dirs + ("/" + name)) != directory && directory + name != directory
    ensures LastSegment(directory + (dirs + ("/" + name))) == name
    ensures LastSegment(directory + name) == name
  {
    var nested := directory + (dirs + ("/" + name));
    var direct := directory + name;
    assert nested[..|directory|] == directory && direct[..|directory|] == directory;
    assert LastSegment(nested) == name by {
      assert nested == (directory + dirs) + ("/" + name);
      LastSegmentAfterSlash(directory + dirs, name);
    }
    assert LastSegment(direct) == name by {
      assert direct == ("/" + secret) + ("/" + name);
      LastSegmentAfterSlash("/" + secret, name);
    }
  }

  /** The file name is the last path segment only: "/<secret>/any/dirs/<name>"
      is answered as "/<secret>/<name>" is. */
  lemma NestedPathQuirk(dirs: string, name: string, range: Option<string>, secret: string, names: seq<string>,
                        shares: map<string, string>, fs: map<string, FileInfo>, sendBody: bool)
    requires name != [] && '/' !in name
    ensures Route(Request(Index.Directory(secret) + (dirs + ("/" + name)), range), secret, names, shares, fs, sendBody)
         == Route(Request(Index.Directory(secret) + name, range), secret, names, shares, fs, sendBody)
  {
    var directory := Index.Directory(secret);
    SegmentOf(directory, dirs, name, secret);
    FileRequest(Request(directory + (dirs + ("/" + name)), range), secret, names, shares, fs, sendBody);
    FileRequest(Request(directory + name, range), secret, names, shares, fs, sendBody);
  }
}
