/** The HTTP request handler of the site's Node server: the visitor counter
    API, the static allowlist, the path containment test and the MIME choice. */
module Server {
  import opened Strings
  import opened Paths

  /** Bytes of a file as `fs.readFile` delivers them. */
  type Bytes = seq<bv8>

  /** Top-level directories whose files may be served (prefix test). */
  const AllowedDirs: seq<string> := ["/js/", "/css/", "/assets/"]

  /** Bare files that may be served (exact test). */
  const AllowedFiles: seq<string> := ["/index.html", "/robots.txt", "/sitemap.xml"]

  /** Extension (lower case, with its dot) to content type. */
  const Mime: map<string, string> := map[
    ".html" := "text/html",
    ".css" := "text/css",
    ".js" := "application/javascript",
    ".json" := "application/json",
    ".png" := "image/png",
    ".jpg" := "image/jpeg",
    ".jpeg" := "image/jpeg",
    ".gif" := "image/gif",
    ".svg" := "image/svg+xml",
    ".ico" := "image/x-icon",
    ".webp" := "image/webp",
    ".woff" := "font/woff",
    ".woff2" := "font/woff2",
    ".xml" := "application/xml",
    ".txt" := "text/plain"
  ]

  const DefaultContentType := "application/octet-stream"

  /** Sent with every response. */
  const SecurityHeaders: map<string, string> := map[
    "X-Content-Type-Options" := "nosniff",
    "X-Frame-Options" := "DENY",
    "Referrer-Policy" := "strict-origin-when-cross-origin"
  ]

  const VisitedCookie := "visited=1; Path=/; Max-Age=86400; SameSite=Lax; HttpOnly; Secure"

  const VisitorsApi := "/api/visitors"

  /** The character Node refuses in a file path. */
  const Nul: char := '\0'

  // ---------------------------------------------------------------------------
  // Cookie header

  /** The header text the parser splits: an absent header reads as "". */
  function HeaderText(header: Option<string>): string {
    if header.Some? then header.value else ""
  }

  /** A piece of the header defines a cookie when its first `=` is not at index 0. */
  predicate Defines(c: string) {
    IndexOf(c, '=') > 0
  }

  function CookieName(c: string): string
    requires Defines(c)
  {
    Trim(c[..IndexOf(c, '=')])
  }

  /** Everything after the first `=`, trimmed: later `=` belong to the value. */
  function CookieValue(c: string): string
    requires Defines(c)
  {
    Trim(c[IndexOf(c, '=') + 1..])
  }

  /** Piece `c` stores a value under `name`. Storing under "__proto__" on a plain
      JavaScript object runs the prototype setter, which ignores a string: no
      entry appears. */
  predicate Stores(c: string, name: string) {
    Defines(c) && CookieName(c) == name && name != "__proto__"
  }

  /** The effect of one piece on the cookie dictionary. */
  function Record(cookies: map<string, string>, c: string): (r: map<string, string>)
    ensures Defines(c) && CookieName(c) != "__proto__" ==> CookieName(c) in r && r[CookieName(c)] == CookieValue(c)
    ensures forall n :: n in cookies && !Stores(c, n) ==> n in r && r[n] == cookies[n]
    ensures forall n :: n in r ==> n in cookies || Stores(c, n)
  {
    if Defines(c) && CookieName(c) != "__proto__" then cookies[CookieName(c) := CookieValue(c)]
    else cookies
  }

  /** The dictionary after recording the pieces in order. */
  function CookiesOf(pieces: seq<string>): (r: map<string, string>)
    ensures "__proto__" !in r
  {
    if |pieces| == 0 then map[]
    else Record(CookiesOf(pieces[..|pieces| - 1]), pieces[|pieces| - 1])
  }

  /** The `forEach` callback of `parseCookies`: one piece updates the dictionary. */
  method RecordPiece(cookies: map<string, string>, c: string) returns (updated: map<string, string>)
    ensures updated == Record(cookies, c)
  {
    updated := cookies;
    var idx := IndexOf(c, '=');
    if idx > 0 {
      var name := Trim(c[..idx]);
      assert name == CookieName(c);
      if name != "__proto__" {
        var value := Trim(c[idx + 1..]);
        assert value == CookieValue(c);
        updated := updated[name := value];
      }
    }
  }

  /** `parseCookies(req)`: split the Cookie header on `;` and record each piece. */
  method ParseCookies(header: Option<string>) returns (cookies: map<string, string>)
    ensures cookies == CookiesOf(Split(HeaderText(header), ';'))
  {
    var pieces := Split(HeaderText(header), ';');
    cookies := map[];
    var i := 0;
    while i < |pieces|
      invariant 0 <= i <= |pieces|
      invariant cookies == CookiesOf(pieces[..i])
    {
      cookies := RecordPiece(cookies, pieces[i]);
      assert pieces[..i + 1][..i] == pieces[..i];
      i := i + 1;
    }
    assert pieces[..|pieces|] == pieces;
  }

  lemma RecordKeys(cookies: map<string, string>, c: string, name: string)
    ensures name in Record(cookies, c) <==> name in cookies || Stores(c, name)
    ensures Stores(c, name) ==> Record(cookies, c)[name] == CookieValue(c)
    ensures !Stores(c, name) && name in cookies ==> Record(cookies, c)[name] == cookies[name]
  {
  }

  /** A name is in the dictionary exactly when some piece stores it. */
  lemma {:induction false} CookiePresent(pieces: seq<string>, name: string)
    ensures name in CookiesOf(pieces) <==> exists j :: 0 <= j < |pieces| && Stores(pieces[j], name)
  {
    if |pieces| > 0 {
      var n := |pieces| - 1;
      var init := pieces[..n];
      CookiePresent(init, name);
      RecordKeys(CookiesOf(init), pieces[n], name);
      assert forall j :: 0 <= j < n ==> init[j] == pieces[j];
      if exists j :: 0 <= j < |pieces| && Stores(pieces[j], name) {
        var j :| 0 <= j < |pieces| && Stores(pieces[j], name);
        assert j == n || Stores(init[j], name);
      }
    }
  }

  /** The value stored under a name is the one of the last piece that stores it. */
  lemma {:induction false} CookieLastWins(pieces: seq<string>, name: string, j: nat)
    requires j < |pieces| && Stores(pieces[j], name)
    requires forall k :: j < k < |pieces| ==> !Stores(pieces[k], name)
    ensures name in CookiesOf(pieces) && CookiesOf(pieces)[name] == CookieValue(pieces[j])
  {
    var n := |pieces| - 1;
    var init := pieces[..n];
    if j < n {
      forall k | j < k < |init| ensures !Stores(init[k], name) {
        assert init[k] == pieces[k];
      }
      assert init[j] == pieces[j];
      CookieLastWins(init, name, j);
      assert !Stores(pieces[n], name);
    }
    assert CookiesOf(pieces) == Record(CookiesOf(init), pieces[n]);
    RecordKeys(CookiesOf(init), pieces[n], name);
  }

  /** Without a Cookie header the dictionary is empty. */
  lemma NoHeaderNoCookies()
    ensures CookiesOf(Split(HeaderText(None), ';')) == map[]
  {
  }

  /** `!cookies.visited`: the marker counts only when present with a non-empty
      value, since the empty string is falsy. */
  function HasVisited(cookies: map<string, string>): (v: bool)
    ensures v <==> "visited" in cookies && |cookies["visited"]| > 0
  {
    "visited" in cookies && cookies["visited"] != ""
  }

  /** The cookie the counter sets, `visited=1`, marks the visitor as returning
      when the browser sends it back, after any whitespace (a browser joins
      cookies with "; "), and no later piece redefines it. */
  lemma ReturningVisitor(pieces: seq<string>, j: nat, pad: string)
    requires AllWhitespace(pad)
    requires j < |pieces| && pieces[j] == pad + "visited=1"
    requires forall k :: j < k < |pieces| ==> !Stores(pieces[k], "visited")
    ensures HasVisited(CookiesOf(pieces))
  {
    assert pad + "visited=1" == pad + "visited=" + "1";
    OneHasNoWhitespace();
    VisitedPiece(pad, "1");
    CookieLastWins(pieces, "visited", j);
  }

  /** A `visited` cookie with an empty value, as the last piece to define it,
      leaves the visitor counted as new. */
  lemma EmptyVisitedIsNew(pieces: seq<string>, j: nat, pad: string)
    requires AllWhitespace(pad)
    requires j < |pieces| && pieces[j] == pad + "visited="
    requires forall k :: j < k < |pieces| ==> !Stores(pieces[k], "visited")
    ensures !HasVisited(CookiesOf(pieces))
  {
    assert pad + "visited=" == pad + "visited=" + "";
    VisitedPiece(pad, "");
    CookieLastWins(pieces, "visited", j);
  }

  lemma VisitedPiece(pad: string, value: string)
    requires AllWhitespace(pad)
    requires forall i :: 0 <= i < |value| ==> !IsJsWhitespace(value[i])
    ensures Stores(pad + "visited=" + value, "visited") && CookieValue(pad + "visited=" + value) == value
  {
    NoWhitespaceInVisited();
    assert pad + "visited=" + value == pad + "visited" + "=" + value;
    PaddedPiece(pad, "visited", value);
  }

  lemma OneHasNoWhitespace()
    ensures forall i :: 0 <= i < |"1"| ==> !IsJsWhitespace("1"[i])
  {
  }

  lemma NoWhitespaceInVisited()
    ensures |"visited"| > 0 && '=' !in "visited"
    ensures forall i :: 0 <= i < |"visited"| ==> !IsJsWhitespace("visited"[i])
  {
  }

  /** A piece `pad + name=value`, with only whitespace in `pad` and none in
      `name` or `value`, stores `value` under `name`. */
  lemma PaddedPiece(pad: string, name: string, value: string)
    requires AllWhitespace(pad)
    requires |name| > 0 && '=' !in name && name != "__proto__"
    requires forall i :: 0 <= i < |name| ==> !IsJsWhitespace(name[i])
    requires forall i :: 0 <= i < |value| ==> !IsJsWhitespace(value[i])
    ensures Stores(pad + name + "=" + value, name) && CookieValue(pad + name + "=" + value) == value
  {
    assert '=' !in pad by {
      forall i | 0 <= i < |pad| ensures pad[i] != '=' { assert IsJsWhitespace(pad[i]); }
    }
    assert pad + name + "=" + value == (pad + name) + "=" + value;
    PieceParts(pad + name, value);
    TrimLeading(pad, name);
    TrimNoWhitespace(value);
  }

  lemma PieceParts(name: string, value: string)
    requires |name| > 0 && '=' !in name
    ensures Defines(name + "=" + value)
    ensures CookieName(name + "=" + value) == Trim(name)
    ensures CookieValue(name + "=" + value) == Trim(value)
  {
    var c := name + "=" + value;
    assert c[..|name|] == name && c[|name| + 1..] == value;
    IndexOfIs(c, '=', |name|);
  }

  // ---------------------------------------------------------------------------
  // Initial count

  /** What reading and parsing `visitors.json` at start-up gave: no readable
      file, text that is not a JSON document with a `count` member that can be
      read, or a document whose `count` member is an integer (`None` when the
      member is absent or a falsy non-number). */
  datatype StoredCounter = Missing | Unparsable | Document(count: Option<int>)

  /** `JSON.parse(...).count || 0`, with every failure caught as 0. */
  function InitialCount(stored: StoredCounter): (n: int)
    ensures stored.Document? && stored.count.Some? ==> n == stored.count.value
    ensures !(stored.Document? && stored.count.Some?) ==> n == 0
  {
    match stored
    case Document(Some(c)) => if c != 0 then c else 0
    case _ => 0
  }

  // ---------------------------------------------------------------------------
  // Responses

  datatype Body = Text(text: string) | CountDocument(count: int) | Contents(data: Bytes)

  datatype Response = Response(status: int, headers: map<string, string>, body: Body)

  /** The headers of the counter API; `Set-Cookie` is added for a new visitor. */
  function ApiHeaders(newVisitor: bool): (h: map<string, string>)
    ensures SecurityHeaders.Items <= h.Items
    ensures "Content-Type" in h && h["Content-Type"] == "application/json"
    ensures "Cache-Control" in h && h["Cache-Control"] == "no-cache"
    ensures ("Set-Cookie" in h) == newVisitor
    ensures newVisitor ==> h["Set-Cookie"] == VisitedCookie
  {
    var h := map["Content-Type" := "application/json", "Cache-Control" := "no-cache"] + SecurityHeaders;
    if newVisitor then h["Set-Cookie" := VisitedCookie] else h
  }

  const BadRequest := Response(400, SecurityHeaders, Text("Bad Request"))
  const NotFound := Response(404, SecurityHeaders, Text("Not Found"))
  const Forbidden := Response(403, SecurityHeaders, Text("Forbidden"))
  const ReadFailed := Response(404, map["Content-Type" := "text/plain"] + SecurityHeaders, Text("Not Found"))

  function Served(contentType: string, data: Bytes): Response {
    Response(200, map["Content-Type" := contentType, "Cache-Control" := "no-cache"] + SecurityHeaders, Contents(data))
  }

  // ---------------------------------------------------------------------------
  // Static files

  /** "/" names the entry document. */
  function Rewrite(pathname: string): (p: string)
    ensures pathname == "/" ==> p == "/index.html"
    ensures pathname != "/" ==> p == pathname
  {
    if pathname == "/" then "/index.html" else pathname
  }

  /** The allowlist test, on the decoded pathname as it is (not normalised). */
  function IsAllowed(pathname: string): (ok: bool)
    ensures ok <==> || pathname in AllowedFiles
                    || StartsWith(pathname, "/js/") || StartsWith(pathname, "/css/") || StartsWith(pathname, "/assets/")
    ensures ok ==> StartsWith(pathname, "/")
  {
    assert AllowedDirs[0] == "/js/" && AllowedDirs[1] == "/css/" && AllowedDirs[2] == "/assets/";
    pathname in AllowedFiles || exists i :: 0 <= i < |AllowedDirs| && StartsWith(pathname, AllowedDirs[i])
  }

  /** `PROJECT_ROOT`: the resolved server directory followed by a separator. */
  function ProjectRoot(dirname: string): string
    requires StartsWith(dirname, "/")
  {
    Resolve(dirname) + "/"
  }

  /** The segments of `path.resolve(path.join(__dirname, pathname))`. */
  function FileSegments(dirname: string, pathname: string): seq<string> {
    Segments(dirname + "/" + pathname)
  }

  function FilePath(dirname: string, pathname: string): string {
    Render(FileSegments(dirname, pathname))
  }

  /** A resolved path lies strictly inside the server directory: it extends the
      directory's segments by at least one more. */
  predicate Inside(dirname: string, segs: seq<string>) {
    var d := Segments(dirname);
    |d| >= 1 && |segs| > |d| && segs[..|d|] == d
  }

  /** The containment test on strings, `filePath.startsWith(PROJECT_ROOT)`,
      holds exactly when the file lies inside the server directory. */
  lemma ContainmentIsInside(dirname: string, pathname: string)
    requires StartsWith(dirname, "/")
    ensures StartsWith(FilePath(dirname, pathname), ProjectRoot(dirname)) <==> Inside(dirname, FileSegments(dirname, pathname))
  {
    RenderPrefix(Segments(dirname), FileSegments(dirname, pathname));
  }

  /** `MIME[path.extname(filePath).toLowerCase()] || 'application/octet-stream'`. */
  function ContentType(filePath: string): (t: string)
    ensures t in Mime.Values || t == DefaultContentType
    ensures Extname(filePath) == "" ==> t == DefaultContentType
    ensures ToLower(Extname(filePath)) in Mime ==> t == Mime[ToLower(Extname(filePath))]
    ensures ToLower(Extname(filePath)) !in Mime ==> t == DefaultContentType
  {
    var ext := ToLower(Extname(filePath));
    if ext in Mime then Mime[ext] else DefaultContentType
  }

  // ---------------------------------------------------------------------------
  // The server

  /** The process: the module-level `visitorCount` and the directory it serves. */
  class VisitorServer {
    var visitorCount: int
    const dirname: string

    /** Start-up: `__dirname` is absolute; the count comes from `visitors.json`. */
    constructor (dirname: string, stored: StoredCounter)
      requires StartsWith(dirname, "/")
      ensures this.dirname == dirname
      ensures visitorCount == InitialCount(stored)
    {
      this.dirname := dirname;
      visitorCount := InitialCount(stored);
    }

    /** One request. `pathname` is the pathname of `new URL(req.url, ...)`,
        None where that constructor throws (a target such as "//" names no
        host); `decode` is `decodeURIComponent` (None where it throws) and
        `readFile` is the file system (None for any read error). `read` is
        the path whose read starts, if any. `resp` is None where the
        listener throws: nothing catches that, so the process ends. Besides
        the URL, that is a resolved path holding a NUL character, which
        `fs.readFile` refuses by throwing before it starts the read. */
    method Handle(pathname: Option<string>, cookieHeader: Option<string>,
                  decode: string -> Option<string>, readFile: string -> Option<Bytes>)
      returns (resp: Option<Response>, read: Option<string>)
      requires StartsWith(dirname, "/")
      modifies this
      ensures visitorCount >= old(visitorCount)
      ensures resp.Some? ==> SecurityHeaders.Items <= resp.value.headers.Items
      ensures pathname.None? ==> resp.None? && read.None? && visitorCount == old(visitorCount)
      ensures pathname.Some? && decode(pathname.value).None? ==>
                resp == Some(BadRequest) && read.None? && visitorCount == old(visitorCount)
      ensures pathname.Some? && decode(pathname.value) == Some(VisitorsApi) ==>
                var newVisitor := !HasVisited(CookiesOf(Split(HeaderText(cookieHeader), ';')));
                && visitorCount == old(visitorCount) + (if newVisitor then 1 else 0)
                && resp == Some(Response(200, ApiHeaders(newVisitor), CountDocument(visitorCount)))
                && read.None?
      ensures pathname.Some? && decode(pathname.value).Some? && decode(pathname.value).value != VisitorsApi ==>
                var p := Rewrite(decode(pathname.value).value);
                var f := FilePath(dirname, p);
                && visitorCount == old(visitorCount)
                && (!IsAllowed(p) ==> resp == Some(NotFound) && read.None?)
                && (IsAllowed(p) && !StartsWith(f, ProjectRoot(dirname)) ==> resp == Some(Forbidden) && read.None?)
                && (IsAllowed(p) && StartsWith(f, ProjectRoot(dirname)) && Nul in f ==> resp.None? && read.None?)
                && (IsAllowed(p) && StartsWith(f, ProjectRoot(dirname)) && Nul !in f ==>
                      read == Some(f)
                      && resp == Some(if readFile(f).None? then ReadFailed else Served(ContentType(f), readFile(f).value)))
      ensures read.Some? ==> Nul !in read.value && exists p :: read.value == FilePath(dirname, p) && Inside(dirname, FileSegments(dirname, p))
    {
      read := None;
      if pathname.None? {
        return None, None;
      }
      var decoded := decode(pathname.value);
      if decoded.None? {
        return Some(BadRequest), None;
      }
      var p := decoded.value;

      if p == VisitorsApi {
        var cookies := ParseCookies(cookieHeader);
        var newVisitor := !HasVisited(cookies);
        if newVisitor {
          visitorCount := visitorCount + 1;
        }
        return Some(Response(200, ApiHeaders(newVisitor), CountDocument(visitorCount))), None;
      }

      p := Rewrite(p);
      if !IsAllowed(p) {
        return Some(NotFound), None;
      }

      var f := FilePath(dirname, p);
      if !StartsWith(f, ProjectRoot(dirname)) {
        return Some(Forbidden), None;
      }
      ContainmentIsInside(dirname, p);

      if Nul in f {
        return None, None;
      }
      read := Some(f);
      var data := readFile(f);
      if data.None? {
        resp := Some(ReadFailed);
      } else {
        resp := Some(Served(ContentType(f), data.value));
      }
    }
  }

  // ---------------------------------------------------------------------------
  // Consequences

  /** `n` parent steps, "../../...". */
  function Ups(n: nat): string {
    if n == 0 then "" else "../" + Ups(n - 1)
  }

  function Dots(n: nat): (r: seq<string>)
    ensures |r| == n && NoSeparators(r)
  {
    if n == 0 then [] else [".."] + Dots(n - 1)
  }

  lemma {:induction false} SplitUps(n: nat, name: string)
    requires '/' !in name
    ensures Split(Ups(n) + name, '/') == Dots(n) + [name]
  {
    if n == 0 {
      assert Ups(0) + name == name && Dots(0) + [name] == [name];
      SplitPlain(name, '/');
    } else {
      assert Ups(n) + name == ".." + "/" + (Ups(n - 1) + name);
      SplitConcat("..", Ups(n - 1) + name, '/');
      SplitPlain("..", '/');
      SplitUps(n - 1, name);
    }
  }

  /** Each parent step removes one directory, and none are removed at the root. */
  lemma {:induction false} WalkDots(stack: seq<string>, n: nat)
    requires AllPlain(stack)
    ensures Walk(stack, Dots(n)) == if n <= |stack| then stack[..|stack| - n] else []
  {
    if n > 0 {
      assert Dots(n)[0] == ".." && Dots(n)[1..] == Dots(n - 1);
      var up := Apply(stack, "..");
      WalkDots(up, n - 1);
      if |stack| > 0 {
        assert up == stack[..|stack| - 1];
        if n <= |stack| { assert up[..|up| - (n - 1)] == stack[..|stack| - n]; }
      }
    }
  }

  /** The raw segments of "/js/" followed by `rest`. */
  lemma SplitUnderJs(rest: string)
    ensures Split("/js/" + rest, '/') == ["", "js"] + Split(rest, '/')
  {
    assert "/js/" + rest == "" + "/" + ("js" + "/" + rest);
    SplitConcat("", "js" + "/" + rest, '/');
    SplitConcat("js", rest, '/');
    SplitPlain("", '/');
    SplitPlain("js", '/');
  }

  /** Dot segments in an allowed pathname can leave the allowed directory: the
      allowlist sees "/js/../" + name (reachable as "/js/..%2f" + name, which
      the URL parser does not normalise), the file read is `name` directly in
      the server directory, and such a file is not itself on the allowlist
      unless it is one of the allowed bare files ("server.js" and
      "visitors.json" are not). */
  lemma AllowlistPrecedesNormalisation(dirname: string, name: string)
    requires StartsWith(dirname, "/") && |Segments(dirname)| >= 1 && IsPlainSegment(name)
    ensures IsAllowed("/js/../" + name)
    ensures FileSegments(dirname, "/js/../" + name) == Segments(dirname) + [name]
    ensures StartsWith(FilePath(dirname, "/js/../" + name), ProjectRoot(dirname))
    ensures IsAllowed("/" + name) <==> "/" + name in AllowedFiles
  {
    var p := "/js/../" + name;
    assert StartsWith(p, AllowedDirs[0]);
    assert p == "/js/" + (Ups(1) + name);
    SplitUnderJs(Ups(1) + name);
    SplitUps(1, name);
    var d := Segments(dirname);
    ResolveJoin(dirname, p);
    var raw := ["", "js"] + Dots(1) + [name];
    assert raw == ["", "js"] + (Dots(1) + [name]);
    WalkAppend(d, ["", "js"] + Dots(1), [name]);
    WalkAppend(d, ["", "js"], Dots(1));
    assert Walk(d, ["", "js"]) == d + ["js"];
    WalkDots(d + ["js"], 1);
    assert (d + ["js"])[..|d|] == d;
    ContainmentIsInside(dirname, p);
    assert (d + [name])[..|d|] == d;
    var dirs := AllowedDirs;
    forall i | 0 <= i < |dirs| ensures !StartsWith("/" + name, dirs[i]) {
      NotUnderDir(name, dirs[i]);
    }
  }

  /** A NUL character in a file name under an allowed directory (reachable as
      "/js/%00") passes the allowlist and the containment test and reaches
      `fs.readFile`, which throws on it: `Handle` answers no response. */
  lemma NulReachesRead(dirname: string, name: string)
    requires StartsWith(dirname, "/") && |Segments(dirname)| >= 1 && IsPlainSegment(name) && Nul in name
    ensures IsAllowed("/js/" + name)
    ensures FileSegments(dirname, "/js/" + name) == Segments(dirname) + ["js", name]
    ensures StartsWith(FilePath(dirname, "/js/" + name), ProjectRoot(dirname))
    ensures Nul in FilePath(dirname, "/js/" + name)
  {
    var p := "/js/" + name;
    assert StartsWith(p, AllowedDirs[0]);
    SplitUnderJs(name);
    SplitPlain(name, '/');
    var d := Segments(dirname);
    ResolveJoin(dirname, p);
    var raw := ["", "js", name];
    assert Split(p, '/') == raw;
    assert raw[1..] == ["js", name];
    assert Walk(d, raw) == Walk(d, ["js", name]);
    WalkPlain(d, ["js", name]);
    var segs := d + ["js", name];
    ContainmentIsInside(dirname, p);
    assert segs[..|d|] == d;
    InRender(segs, |segs| - 1, Nul);
  }

  /** A single segment after "/" never starts with a directory prefix "/x/". */
  lemma NotUnderDir(name: string, dir: string)
    requires '/' !in name && |dir| >= 2 && dir[0] == '/' && dir[|dir| - 1] == '/'
    ensures !StartsWith("/" + name, dir)
  {
  }

  /** A traversal that climbs past the server directory passes the allowlist
      and fails the containment test: the resolved path keeps only `name`. */
  lemma TraversalIsForbidden(dirname: string, name: string)
    requires StartsWith(dirname, "/") && IsPlainSegment(name)
    ensures IsAllowed("/js/" + Ups(|Segments(dirname)| + 1) + name)
    ensures FileSegments(dirname, "/js/" + Ups(|Segments(dirname)| + 1) + name) == [name]
    ensures !StartsWith(FilePath(dirname, "/js/" + Ups(|Segments(dirname)| + 1) + name), ProjectRoot(dirname))
  {
    var d := Segments(dirname);
    var n := |d| + 1;
    var p := "/js/" + Ups(n) + name;
    assert StartsWith(p, AllowedDirs[0]);
    assert p == "/js/" + (Ups(n) + name);
    SplitUnderJs(Ups(n) + name);
    SplitUps(n, name);
    ResolveJoin(dirname, p);
    assert ["", "js"] + (Dots(n) + [name]) == ["", "js"] + Dots(n) + [name];
    WalkAppend(d, ["", "js"] + Dots(n), [name]);
    WalkAppend(d, ["", "js"], Dots(n));
    assert Walk(d, ["", "js"]) == d + ["js"];
    WalkDots(d + ["js"], n);
    assert Walk([], [name]) == [name];
    ContainmentIsInside(dirname, p);
  }

  /** A file `stem + ext` is served with the type the table lists for the
      lower-cased `ext`, and as a byte stream when the table has no entry. */
  lemma ContentTypeOfFile(dir: string, stem: string, ext: string)
    requires '/' !in stem && '/' !in ext && |stem| > 0 && stem + ext != ".."
    requires |ext| > 0 && ext[0] == '.' && '.' !in ext[1..]
    ensures ContentType(dir + "/" + stem + ext) == if ToLower(ext) in Mime then Mime[ToLower(ext)] else DefaultContentType
  {
    ExtnameOfFile(dir, stem, ext);
    ExtensionSelects(dir + "/" + stem + ext, ext);
  }

  lemma ExtensionSelects(f: string, ext: string)
    requires Extname(f) == ext
    ensures ContentType(f) == if ToLower(ext) in Mime then Mime[ToLower(ext)] else DefaultContentType
  {
  }

  /** The extension is matched without regard to the case of ASCII letters. */
  lemma ContentTypeIgnoresCase(dir: string, stem: string)
    requires '/' !in stem && |stem| > 0
    ensures ContentType(dir + "/" + stem + ".JS") == "application/javascript"
  {
    assert ToLower(".JS") == ".js";
    assert ".js" in Mime && Mime[".js"] == "application/javascript";
    ContentTypeOfFile(dir, stem, ".JS");
  }
}
