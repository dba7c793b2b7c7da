/** The local server: the search for a free port, the index from CDN URL to hack and the
    redirect decision built on it, the request handler's traversal guard and status
    choice, and the module state `activePort`. Sockets, Electron's session and the file
    reads are parameters: `available` answers whether a port can be bound, `listens`
    whether the HTTP server starts listening, `read` what `fs.readFile` delivers. */
module Server {
  import opened Text
  import opened PosixPath
  import opened Config
  import opened Hacks

  const DefaultPort: nat := 8420
  const PortRange: nat := 10
  /** One past the last port tried. */
  const PortEnd: nat := DefaultPort + PortRange

  /** The error of `findAvailablePort`, with `DEFAULT_PORT` and
      `DEFAULT_PORT + PORT_RANGE - 1` filled in. */
  const NoPortMessage: string :=
    "No available ports found in range 8420-8429. Please close other applications using these ports."

  // ---------------------------------------------------------------------------------
  // Port search

  /** The lowest port from `from` up to the end of the window for which the probe
      answers yes. */
  function FirstAvailable(available: int -> bool, from: nat): (r: Option<nat>)
    requires DefaultPort <= from <= PortEnd
    ensures r.Some? ==> from <= r.value < PortEnd && available(r.value)
    ensures r.Some? ==> forall p :: from <= p < r.value ==> !available(p)
    ensures r.None? <==> forall p :: from <= p < PortEnd ==> !available(p)
    decreases PortEnd - from
  {
    if from == PortEnd then None
    else if available(from) then Some(from)
    else FirstAvailable(available, from + 1)
  }

  datatype PortSearch = Found(port: nat) | NoPort(message: string)

  /** `findAvailablePort`: tries 8420, 8421, ... 8429 in turn and returns the first one
      the probe accepts; throws when none is accepted. */
  method FindAvailablePort(available: int -> bool) returns (r: PortSearch)
    ensures r.Found? <==> FirstAvailable(available, DefaultPort).Some?
    ensures r.Found? ==> r.port == FirstAvailable(available, DefaultPort).value
    ensures r.Found? ==> DefaultPort <= r.port < PortEnd && available(r.port)
                         && forall p :: DefaultPort <= p < r.port ==> !available(p)
    ensures r.NoPort? <==> forall p :: DefaultPort <= p < PortEnd ==> !available(p)
    ensures r.NoPort? ==> r.message == NoPortMessage
  {
    var port := DefaultPort;
    while port < PortEnd
      invariant DefaultPort <= port <= PortEnd
      invariant forall p :: DefaultPort <= p < port ==> !available(p)
      invariant FirstAvailable(available, DefaultPort) == FirstAvailable(available, port)
    {
      if available(port) {
        return Found(port);
      }
      port := port + 1;
    }
    return NoPort(NoPortMessage);
  }

  // ---------------------------------------------------------------------------------
  // URL index and redirect

  /** No later entry of the catalogue has the URL of entry `i`. */
  predicate LastWithUrl(catalogue: seq<(string, Hack)>, i: nat)
    requires i < |catalogue|
  {
    forall j :: i < j < |catalogue| ==> catalogue[j].1.url != catalogue[i].1.url
  }

  /** `index` is `hacksByUrl` for the catalogue in iteration order: its keys are the
      hacks' URLs, and each URL maps to the last hack that has it. */
  predicate IndexesLast(index: map<string, Hack>, catalogue: seq<(string, Hack)>)
  {
    && (forall u :: u in index ==> exists i :: 0 <= i < |catalogue| && catalogue[i].1.url == u)
    && (forall i :: 0 <= i < |catalogue| ==> catalogue[i].1.url in index)
    && (forall i :: 0 <= i < |catalogue| && LastWithUrl(catalogue, i) ==> index[catalogue[i].1.url] == catalogue[i].1)
  }

  /** Filling `hacksByUrl`: one assignment per hack, so a later hack with the same URL
      overwrites an earlier one. */
  method BuildIndex(catalogue: seq<(string, Hack)>) returns (index: map<string, Hack>)
    ensures IndexesLast(index, catalogue)
  {
    index := map[];
    var k := 0;
    while k < |catalogue|
      invariant 0 <= k <= |catalogue|
      invariant IndexesLast(index, catalogue[..k])
    {
      IndexAppend(index, catalogue[..k], catalogue[k]);
      assert catalogue[..k + 1] == catalogue[..k] + [catalogue[k]];
      index := index[catalogue[k].1.url := catalogue[k].1];
      k := k + 1;
    }
    assert catalogue[..k] == catalogue;
  }

  /** Assigning the next hack keeps the index right for the longer catalogue. */
  lemma IndexAppend(index: map<string, Hack>, prefix: seq<(string, Hack)>, entry: (string, Hack))
    requires IndexesLast(index, prefix)
    ensures IndexesLast(index[entry.1.url := entry.1], prefix + [entry])
  {
    var c, m := prefix + [entry], index[entry.1.url := entry.1];
    forall u | u in m ensures exists i :: 0 <= i < |c| && c[i].1.url == u {
      if u in index {
        var i :| 0 <= i < |prefix| && prefix[i].1.url == u;
        assert c[i] == prefix[i];
      } else {
        assert c[|prefix|] == entry;
      }
    }
    forall i | 0 <= i < |c| ensures c[i].1.url in m {
      if i < |prefix| {
        assert c[i] == prefix[i];
      }
    }
    forall i | 0 <= i < |c| && LastWithUrl(c, i) ensures m[c[i].1.url] == c[i].1 {
      if i < |prefix| {
        assert c[i] == prefix[i];
        assert c[|prefix|] == entry;
        assert LastWithUrl(prefix, i) by {
          forall j | i < j < |prefix| ensures prefix[j].1.url != prefix[i].1.url {
            assert c[j] == prefix[j];
          }
        }
      }
    }
  }

  /** Every key of the index comes from the last hack with that URL. */
  lemma IndexedIsLast(index: map<string, Hack>, catalogue: seq<(string, Hack)>, u: string)
    requires IndexesLast(index, catalogue) && u in index
    ensures exists i :: 0 <= i < |catalogue| && catalogue[i].1.url == u && LastWithUrl(catalogue, i)
                        && index[u] == catalogue[i].1
  {
    var i :| 0 <= i < |catalogue| && catalogue[i].1.url == u;
    var j := LastOccurrence(catalogue, i);
  }

  /** The last entry with the URL of entry `i`. */
  lemma LastOccurrence(catalogue: seq<(string, Hack)>, i: nat) returns (j: nat)
    requires i < |catalogue|
    ensures i <= j < |catalogue| && catalogue[j].1.url == catalogue[i].1.url && LastWithUrl(catalogue, j)
    decreases |catalogue| - i
  {
    if LastWithUrl(catalogue, i) {
      j := i;
    } else {
      var k :| i < k < |catalogue| && catalogue[k].1.url == catalogue[i].1.url;
      j := LastOccurrence(catalogue, k);
    }
  }

  /** The index is determined by the catalogue. */
  lemma IndexUnique(m1: map<string, Hack>, m2: map<string, Hack>, catalogue: seq<(string, Hack)>)
    requires IndexesLast(m1, catalogue) && IndexesLast(m2, catalogue)
    ensures m1 == m2
  {
    assert m1.Keys == m2.Keys;
    forall u | u in m1 ensures m1[u] == m2[u] {
      IndexedIsLast(m1, catalogue, u);
    }
  }

  /** `http://127.0.0.1:${activePort}`. */
  function LocalOrigin(port: nat): (r: string)
    ensures '$' !in r
  {
    "http://127.0.0.1:" + DecimalString(port)
  }

  /** The `onBeforeRequest` callback: a request whose URL is an index key and whose hack
      is enabled by `currentConfig[hack.id]` is redirected to the URL with its first
      `cdn` occurrence replaced by the local origin; every other request passes. */
  function RedirectFor(index: map<string, Hack>, config: map<string, JsonValue>, cdn: string, port: nat,
                       url: string): (r: Option<string>)
    ensures r.Some? <==> url in index && Truthy(config, index[url].id)
    ensures r.Some? && IndexOf(url, cdn).None? ==> r.value == url
    ensures r.Some? && IndexOf(url, cdn).Some? ==>
              var i := IndexOf(url, cdn).value;
              r.value == url[..i] + LocalOrigin(port) + url[i + |cdn|..]
  {
    if url !in index || !Truthy(config, index[url].id) then None
    else Some(ReplaceFirst(url, cdn, LocalOrigin(port)))
  }

  /** A URL on the CDN is redirected to the same path under the local origin. */
  lemma RedirectKeepsPath(index: map<string, Hack>, config: map<string, JsonValue>, cdn: string, port: nat,
                          url: string)
    requires url in index && Truthy(config, index[url].id) && StartsWith(url, cdn)
    ensures RedirectFor(index, config, cdn, port, url) == Some(LocalOrigin(port) + url[|cdn|..])
  {
    IndexOfPrefix(url, cdn);
    assert url[..0] + LocalOrigin(port) + url[0 + |cdn|..] == LocalOrigin(port) + url[|cdn|..];
  }

  /** Over a catalogue: the URL of a hack is redirected exactly when the last hack with
      that URL is enabled; a URL no hack has is never redirected. */
  lemma RedirectOfCatalogue(index: map<string, Hack>, catalogue: seq<(string, Hack)>,
                            config: map<string, JsonValue>, cdn: string, port: nat, url: string)
    requires IndexesLast(index, catalogue)
    ensures (forall i :: 0 <= i < |catalogue| ==> catalogue[i].1.url != url) ==>
              RedirectFor(index, config, cdn, port, url).None?
    ensures forall i :: 0 <= i < |catalogue| && catalogue[i].1.url == url && LastWithUrl(catalogue, i) ==>
              (RedirectFor(index, config, cdn, port, url).Some? <==> Truthy(config, catalogue[i].1.id))
  {
  }

  // ---------------------------------------------------------------------------------
  // Request handler

  /** `path.join(__dirname, "server", req.url)`: the file the handler reads. */
  function FilePath(appDir: string, reqUrl: string): string
  {
    Join([appDir, "server", reqUrl])
  }

  /** `path.resolve(filePath)`. */
  function Resolved(appDir: string, reqUrl: string): (r: string)
    requires IsAbsolute(appDir)
    ensures IsAbsolute(r)
  {
    ResolvedJoin([appDir, "server", reqUrl]);
    ResolveAbsolute(FilePath(appDir, reqUrl))
  }

  /** `path.resolve(path.join(__dirname, "server"))`. */
  function ServerDir(appDir: string): (r: string)
    requires IsAbsolute(appDir)
    ensures IsAbsolute(r)
  {
    ResolvedJoin([appDir, "server"]);
    ResolveAbsolute(Join([appDir, "server"]))
  }

  /** The guard as written: `resolvedPath.startsWith(serverDir)`. It admits everything
      the segment-wise guard admits. */
  predicate Admitted(appDir: string, reqUrl: string)
    requires IsAbsolute(appDir)
    ensures Confined(appDir, reqUrl) ==> Admitted(appDir, reqUrl)
  {
    var d, r := ServerDir(appDir), Resolved(appDir, reqUrl);
    assert Contains(d, r) && r != d ==> r[..|d|] == (d + "/")[..|d|];
    StartsWith(r, d)
  }

  /** The guard as intended: the resolved path is the server directory or lies below
      it, segment-wise. */
  predicate Confined(appDir: string, reqUrl: string)
    requires IsAbsolute(appDir)
  {
    Contains(ServerDir(appDir), Resolved(appDir, reqUrl))
  }

  /** An HTTP response: status code, headers in the order set, body. */
  datatype Response = Response(status: nat, headers: seq<(string, string)>, body: string)

  const SwfHeaders: seq<(string, string)> :=
    [("Content-Type", "application/x-shockwave-flash"), ("Access-Control-Allow-Origin", "*")]

  /** The status choice shared by both guards: 403 Forbidden when refused, else 404 Not
      Found when the read fails, else 200 OK with the file (section 15 of RFC 9110). */
  function Respond(permitted: bool, file: Option<string>): (r: Response)
    ensures r.status == 403 <==> !permitted
    ensures r.status == 404 <==> permitted && file.None?
    ensures r.status == 200 <==> permitted && file.Some?
    ensures r.status == 200 ==> r.headers == SwfHeaders && r.body == file.value
  {
    if !permitted then Response(403, [], "Forbidden")
    else if file.None? then Response(404, [], "File not found")
    else Response(200, SwfHeaders, file.value)
  }

  /** The `http.createServer` request handler as written. */
  function Handle(appDir: string, reqUrl: string, read: string -> Option<string>): (r: Response)
    requires IsAbsolute(appDir)
    ensures r.status == 403 <==> !Admitted(appDir, reqUrl)
    ensures r.status == 404 <==> Admitted(appDir, reqUrl) && read(FilePath(appDir, reqUrl)).None?
    ensures r.status == 200 <==> Admitted(appDir, reqUrl) && read(FilePath(appDir, reqUrl)).Some?
    ensures r.status == 200 ==> r.headers == SwfHeaders && r.body == read(FilePath(appDir, reqUrl)).value
    ensures r.status != 200 ==> r.headers == []
  {
    Respond(Admitted(appDir, reqUrl), read(FilePath(appDir, reqUrl)))
  }

  /** The handler with the segment-aware guard: only files at or below the server
      directory are ever read. */
  function HandleContained(appDir: string, reqUrl: string, read: string -> Option<string>): (r: Response)
    requires IsAbsolute(appDir)
    ensures r.status == 403 <==> !Confined(appDir, reqUrl)
    ensures r.status != 403 ==> Contains(ServerDir(appDir), Resolved(appDir, reqUrl))
    ensures r.status == 200 <==> Confined(appDir, reqUrl) && read(FilePath(appDir, reqUrl)).Some?
    ensures r.status == 200 ==> r.headers == SwfHeaders && r.body == read(FilePath(appDir, reqUrl)).value
  {
    Respond(Confined(appDir, reqUrl), read(FilePath(appDir, reqUrl)))
  }

  /** The segment-aware guard is the stricter one, so the corrected handler refuses
      everything the original refuses and answers every other request alike. */
  lemma ConfinedIsAdmitted(appDir: string, reqUrl: string, read: string -> Option<string>)
    requires IsAbsolute(appDir)
    ensures Confined(appDir, reqUrl) ==> Admitted(appDir, reqUrl)
    ensures Confined(appDir, reqUrl) ==> HandleContained(appDir, reqUrl, read) == Handle(appDir, reqUrl, read)
  {
    var d, r := ServerDir(appDir), Resolved(appDir, reqUrl);
    if Contains(d, r) && r != d {
      assert r[..|d|] == (d + "/")[..|d|];
    }
  }

  /** The text of the joined request path for a normalised application directory
      `/a1/.../an` and a request `/s1/.../sm`. */
  lemma JoinedRequest(dirSegs: seq<string>, segs: seq<string>)
    requires |dirSegs| >= 1 && AllOrdinary(dirSegs)
    requires |segs| >= 1 && forall i :: 0 <= i < |segs| ==> '/' !in segs[i]
    ensures var appDir, reqUrl := "/" + JoinWith(dirSegs, '/'), "/" + JoinWith(segs, '/');
            var all := [""] + dirSegs + ["server", ""] + segs;
            && NonEmptyParts([appDir, "server", reqUrl]) == [appDir, "server", reqUrl]
            && Split(JoinWith([appDir, "server", reqUrl], '/'), '/') == all
  {
    var appDir, reqUrl := "/" + JoinWith(dirSegs, '/'), "/" + JoinWith(segs, '/');
    var all := [""] + dirSegs + ["server", ""] + segs;
    JoinTriple(appDir, "server", reqUrl);
    RequestText(dirSegs, segs);
    RequestPartsSepFree(dirSegs, segs);
    SplitJoin(all, '/');
    NonEmptyTriple(appDir, "server", reqUrl);
  }

  lemma NonEmptyTriple(a: string, b: string, c: string)
    requires a != "" && b != "" && c != ""
    ensures NonEmptyParts([a, b, c]) == [a, b, c]
  {
    NonEmptyPair(b, c);
    assert [a, b, c][1..] == [b, c];
    assert NonEmptyParts([a, b, c]) == [a] + NonEmptyParts([b, c]);
  }

  lemma NonEmptyPair(a: string, b: string)
    requires a != "" && b != ""
    ensures NonEmptyParts([a, b]) == [a, b]
  {
    assert NonEmptyParts([b]) == [b] by {
      assert [b][1..] == [];
      assert NonEmptyParts([b]) == [b] + NonEmptyParts([]);
    }
    assert [a, b][1..] == [b];
    assert NonEmptyParts([a, b]) == [a] + NonEmptyParts([b]);
  }

  lemma JoinTriple(a: string, b: string, c: string)
    ensures JoinWith([a, b, c], '/') == a + "/" + (b + "/" + c)
  {
    JoinPair(b, c);
    assert [a, b, c][1..] == [b, c];
    assert JoinWith([a, b, c], '/') == a + ['/'] + JoinWith([b, c], '/');
  }

  lemma JoinPair(a: string, b: string)
    ensures JoinWith([a, b], '/') == a + "/" + b
  {
    assert [a, b][1..] == [b];
    assert JoinWith([b], '/') == b;
    assert JoinWith([a, b], '/') == a + ['/'] + JoinWith([b], '/');
  }

  /** `/a1/.../an` + `/server/` + `/s1/.../sm` spelled as one list of segments. */
  lemma RequestText(dirSegs: seq<string>, segs: seq<string>)
    requires |dirSegs| >= 1 && |segs| >= 1
    ensures ("/" + JoinWith(dirSegs, '/')) + "/" + ("server" + "/" + ("/" + JoinWith(segs, '/')))
            == JoinWith([""] + dirSegs + ["server", ""] + segs, '/')
  {
    var rootDir, rootReq := [""] + dirSegs, [""] + segs;
    var tail := ["server"] + rootReq;
    JoinWithCons("", dirSegs, '/');
    JoinWithCons("", segs, '/');
    JoinWithCons("server", rootReq, '/');
    JoinWithAppend(rootDir, tail, '/');
    assert rootDir + tail == [""] + dirSegs + ["server", ""] + segs;
    AssocRequest(JoinWith(dirSegs, '/'), JoinWith(segs, '/'), JoinWith(rootDir, '/'), JoinWith(rootReq, '/'),
                 JoinWith(tail, '/'), JoinWith(rootDir + tail, '/'));
  }

  lemma AssocRequest(d: string, s: string, x1: string, x2: string, x3: string, x4: string)
    requires x1 == "" + ['/'] + d && x2 == "" + ['/'] + s && x3 == "server" + ['/'] + x2 && x4 == x1 + ['/'] + x3
    ensures ("/" + d) + "/" + ("server" + "/" + ("/" + s)) == x4
  {
  }

  lemma RequestPartsSepFree(dirSegs: seq<string>, segs: seq<string>)
    requires AllOrdinary(dirSegs)
    requires forall i :: 0 <= i < |segs| ==> '/' !in segs[i]
    ensures var all := [""] + dirSegs + ["server", ""] + segs;
            forall i :: 0 <= i < |all| ==> '/' !in all[i]
  {
    var all := [""] + dirSegs + ["server", ""] + segs;
    forall i | 0 <= i < |all| ensures '/' !in all[i] {
      if 1 <= i <= |dirSegs| {
        assert all[i] == dirSegs[i - 1];
      } else if i > |dirSegs| + 2 {
        assert all[i] == segs[i - |dirSegs| - 3];
      }
    }
  }

  /** Resolving the joined request: the segment walk of `normalizeString` over
      `a1 ... an server "" s1 ... sm`. */
  lemma ResolvedRequest(dirSegs: seq<string>, segs: seq<string>)
    requires |dirSegs| >= 1 && AllOrdinary(dirSegs)
    requires |segs| >= 1 && forall i :: 0 <= i < |segs| ==> '/' !in segs[i]
    ensures var appDir, reqUrl := "/" + JoinWith(dirSegs, '/'), "/" + JoinWith(segs, '/');
            Resolved(appDir, reqUrl)
            == "/" + JoinWith(ResolveSegments([""] + dirSegs + ["server", ""] + segs, false), '/')
  {
    var appDir, reqUrl := "/" + JoinWith(dirSegs, '/'), "/" + JoinWith(segs, '/');
    JoinedRequest(dirSegs, segs);
    ResolvedJoin([appDir, "server", reqUrl]);
  }

  /** The server directory of a normalised application directory is `server` below
      it. */
  lemma ServerDirOf(dirSegs: seq<string>)
    requires |dirSegs| >= 1 && AllOrdinary(dirSegs)
    ensures ServerDir("/" + JoinWith(dirSegs, '/')) == "/" + JoinWith(dirSegs, '/') + "/server"
  {
    var appDir := "/" + JoinWith(dirSegs, '/');
    var segs := dirSegs + ["server"];
    ServerDirText(dirSegs);
    ResolvedJoin([appDir, "server"]);
    var joined := JoinWith(NonEmptyParts([appDir, "server"]), '/');
    RootedSegments(joined, segs);
    assert ServerDir(appDir) == "/" + JoinWith(segs, '/');
    JoinWithAppend(dirSegs, ["server"], '/');
    assert JoinWith(["server"], '/') == "server";
    AssocDir(JoinWith(dirSegs, '/'), JoinWith(segs, '/'));
  }

  /** The rearrangement of `"/" + d + "/server"` that `ServerDirOf` needs, stated over
      plain strings so that the join terms around it stay out of the proof. */
  lemma AssocDir(d: string, x: string)
    requires x == d + ['/'] + "server"
    ensures "/" + x == "/" + d + "/server"
  {
  }

  /** The segments `path.resolve` keeps of `/s1/.../sn` for ordinary `si`. */
  lemma RootedSegments(p: string, segs: seq<string>)
    requires Split(p, '/') == [""] + segs && AllOrdinary(segs)
    ensures AbsoluteSegments(p) == segs
  {
    ResolveRooted(segs);
    KeptOrdinary(segs);
  }

  /** The segments of `path.join(appDir, "server")`. */
  lemma ServerDirText(dirSegs: seq<string>)
    requires |dirSegs| >= 1 && AllOrdinary(dirSegs)
    ensures var appDir := "/" + JoinWith(dirSegs, '/');
            && AllOrdinary(dirSegs + ["server"])
            && NonEmptyParts([appDir, "server"]) == [appDir, "server"]
            && Split(JoinWith([appDir, "server"], '/'), '/') == [""] + (dirSegs + ["server"])
  {
    var appDir := "/" + JoinWith(dirSegs, '/');
    var segs := dirSegs + ["server"];
    assert AllOrdinary(segs) by {
      assert forall i :: 0 <= i < |dirSegs| ==> segs[i] == dirSegs[i];
    }
    JoinPair(appDir, "server");
    JoinWithCons("", segs, '/');
    JoinWithAppend(dirSegs, ["server"], '/');
    assert JoinWith(["server"], '/') == "server";
    AssocServer(JoinWith(dirSegs, '/'), JoinWith(segs, '/'), JoinWith([""] + segs, '/'));
    RootedSepFree(segs);
    SplitJoin([""] + segs, '/');
    NonEmptyPair(appDir, "server");
  }

  /** The same rearrangement for `ServerDirText`, over plain strings. */
  lemma AssocServer(d: string, x1: string, x2: string)
    requires x1 == d + ['/'] + "server" && x2 == "" + ['/'] + x1
    ensures ("/" + d) + "/" + "server" == x2
  {
  }

  lemma RootedSepFree(segs: seq<string>)
    requires AllOrdinary(segs)
    ensures forall i :: 0 <= i < |[""] + segs| ==> '/' !in ([""] + segs)[i]
  {
    forall i | 0 <= i < |[""] + segs| ensures '/' !in ([""] + segs)[i] {
      if i > 0 {
        assert ([""] + segs)[i] == segs[i - 1];
      }
    }
  }

  /** The segments of the request walk with no `..`: the directories, `server`, and the
      request's own segments. */
  lemma OrdinaryWalk(dirSegs: seq<string>, segs: seq<string>)
    requires AllOrdinary(dirSegs) && AllOrdinary(segs)
    ensures ResolveSegments([""] + dirSegs + ["server", ""] + segs, false) == dirSegs + ["server"] + segs
  {
    var xs := dirSegs + ["server", ""] + segs;
    assert [""] + dirSegs + ["server", ""] + segs == [""] + xs;
    forall i | 0 <= i < |xs| ensures xs[i] != ".." {
      if i < |dirSegs| {
        assert xs[i] == dirSegs[i];
      } else if i >= |dirSegs| + 2 {
        assert xs[i] == segs[i - |dirSegs| - 2];
      }
    }
    ResolveRooted(xs);
    KeptAppend(dirSegs + ["server", ""], segs);
    KeptAppend(dirSegs, ["server", ""]);
    KeptOrdinary(dirSegs);
    KeptOrdinary(segs);
    assert Kept(["server", ""]) == ["server"] by {
      assert ["server", ""][..1] == ["server"];
      assert ["server"][..0] == [];
    }
  }

  /** The segments of the request walk when the request starts with `..`: it climbs out
      of `server` into the application directory. */
  lemma ClimbingWalk(dirSegs: seq<string>, rest: seq<string>)
    requires AllOrdinary(dirSegs) && AllOrdinary(rest)
    ensures ResolveSegments([""] + dirSegs + ["server", ""] + ([".."] + rest), false) == dirSegs + rest
  {
    var front := [""] + dirSegs + ["server", "", ".."];
    assert [""] + dirSegs + ["server", ""] + ([".."] + rest) == front + rest;
    forall i | 0 <= i < |rest| ensures rest[i] != ".." {
    }
    ResolveAppendNoDotDot(front, rest, false);
    KeptOrdinary(rest);
    assert front[..|front| - 1] == [""] + dirSegs + ["server", ""];
    OrdinaryWalk(dirSegs, []);
    assert [""] + dirSegs + ["server", ""] + [] == [""] + dirSegs + ["server", ""];
    assert dirSegs + ["server"] + [] == dirSegs + ["server"];
  }

  /** A request for an ordinary path is admitted by both guards and reads
      `<appDir>/server/<path>`. */
  lemma HandleOrdinary(dirSegs: seq<string>, segs: seq<string>, read: string -> Option<string>)
    requires |dirSegs| >= 1 && AllOrdinary(dirSegs) && |segs| >= 1 && AllOrdinary(segs)
    ensures var appDir, reqUrl := "/" + JoinWith(dirSegs, '/'), "/" + JoinWith(segs, '/');
            && Resolved(appDir, reqUrl) == appDir + "/server/" + JoinWith(segs, '/')
            && Confined(appDir, reqUrl) && Admitted(appDir, reqUrl)
            && Handle(appDir, reqUrl, read).status != 403
  {
    var appDir, reqUrl := "/" + JoinWith(dirSegs, '/'), "/" + JoinWith(segs, '/');
    assert forall i :: 0 <= i < |segs| ==> '/' !in segs[i];
    ResolvedRequest(dirSegs, segs);
    OrdinaryWalk(dirSegs, segs);
    ServerDirOf(dirSegs);
    var served := dirSegs + ["server"];
    JoinWithAppend(served, segs, '/');
    JoinWithAppend(dirSegs, ["server"], '/');
    assert JoinWith(["server"], '/') == "server";
    OrdinaryText(JoinWith(dirSegs, '/'), JoinWith(segs, '/'), JoinWith(served, '/'), JoinWith(served + segs, '/'));
    ConfinedIsAdmitted(appDir, reqUrl, read);
  }

  lemma OrdinaryText(d: string, t: string, x1: string, x2: string)
    requires x1 == d + ['/'] + "server" && x2 == x1 + ['/'] + t
    ensures "/" + x2 == "/" + d + "/server/" + t
    ensures Contains("/" + d + "/server", "/" + x2)
  {
    var r, dir := "/" + x2, "/" + d + "/server";
    assert r == dir + "/" + t;
    assert r[..|dir + "/"|] == dir + "/";
  }

  /** Whatever the as-written guard admits lies inside the application directory. */
  lemma AdmittedWithinApp(dirSegs: seq<string>, reqUrl: string)
    requires |dirSegs| >= 1 && AllOrdinary(dirSegs)
    requires Admitted("/" + JoinWith(dirSegs, '/'), reqUrl)
    ensures Contains("/" + JoinWith(dirSegs, '/'), Resolved("/" + JoinWith(dirSegs, '/'), reqUrl))
  {
    var appDir := "/" + JoinWith(dirSegs, '/');
    ServerDirOf(dirSegs);
    PrefixBelow(appDir, Resolved(appDir, reqUrl));
  }

  lemma PrefixBelow(a: string, r: string)
    requires StartsWith(r, a + "/server")
    ensures Contains(a, r)
  {
    assert r[..|a + "/"|] == (a + "/server")[..|a + "/"|];
  }

  /** The `/`-joined text of a list of segments starts with its first segment. */
  lemma JoinStartsWithFirst(parts: seq<string>)
    requires |parts| >= 1
    ensures StartsWith(JoinWith(parts, '/'), parts[0])
  {
    if |parts| > 1 {
      JoinWithCons(parts[0], parts[1..], '/');
      assert parts == [parts[0]] + parts[1..];
    }
  }

  /** A request that climbs out of `server` into an entry of the application directory
      whose name starts with `server` (`server.js`, `server2`, ...) passes the
      as-written guard although it is not below the server directory. */
  lemma SiblingAdmitted(dirSegs: seq<string>, rest: seq<string>)
    requires |dirSegs| >= 1 && AllOrdinary(dirSegs) && |rest| >= 1 && AllOrdinary(rest)
    requires StartsWith(rest[0], "server") && rest[0] != "server"
    ensures var appDir, reqUrl := "/" + JoinWith(dirSegs, '/'), "/" + JoinWith([".."] + rest, '/');
            && Resolved(appDir, reqUrl) == appDir + "/" + JoinWith(rest, '/')
            && Admitted(appDir, reqUrl) && !Confined(appDir, reqUrl)
  {
    var appDir, reqUrl := "/" + JoinWith(dirSegs, '/'), "/" + JoinWith([".."] + rest, '/');
    var segs := [".."] + rest;
    assert forall i :: 0 <= i < |segs| ==> '/' !in segs[i] by {
      forall i | 0 <= i < |segs| ensures '/' !in segs[i] {
        if i > 0 {
          assert segs[i] == rest[i - 1];
        }
      }
    }
    ResolvedRequest(dirSegs, segs);
    ClimbingWalk(dirSegs, rest);
    ServerDirOf(dirSegs);
    JoinWithAppend(dirSegs, rest, '/');
    JoinStartsWithFirst(rest);
    var tail := JoinWith(rest, '/');
    SiblingText(JoinWith(dirSegs, '/'), tail, JoinWith(dirSegs + rest, '/'), rest[0]);
  }

  lemma SiblingText(d: string, tail: string, x: string, name: string)
    requires x == d + ['/'] + tail
    requires StartsWith(tail, name) && StartsWith(name, "server") && name != "server" && '/' !in name
    ensures "/" + x == "/" + d + "/" + tail
    ensures StartsWith("/" + x, "/" + d + "/server") && !Contains("/" + d + "/server", "/" + x)
  {
    var r, dir := "/" + x, "/" + d + "/server";
    assert r == "/" + d + "/" + tail;
    assert |name| > 6 by {
      assert name[..6] == "server";
    }
    assert tail[..6] == "server" by {
      assert tail[..6] == name[..6];
    }
    assert r[..|dir|] == dir by {
      assert r[..|dir|] == "/" + d + "/" + tail[..6];
    }
    assert r[|dir|] != '/' by {
      assert r[|dir|] == tail[6] == name[6];
      assert name[6] in name;
    }
    assert (dir + "/")[|dir|] == '/';
    assert r[..|dir + "/"|][|dir|] == r[|dir|];
    assert r != dir && r[..|dir + "/"|] != dir + "/";
  }

  /** The request `/../server.js` against the application directory `/app` reads
      `/app/server.js` through the as-written guard and is refused by the corrected
      one. */
  lemma PrefixGuardAdmitsSibling(appDir: string, reqUrl: string, read: string -> Option<string>)
    requires appDir == "/app" && reqUrl == "/../server.js"
    ensures IsAbsolute(appDir)
    ensures Resolved(appDir, reqUrl) == "/app/server.js"
    ensures Admitted(appDir, reqUrl) && !Confined(appDir, reqUrl)
    ensures Handle(appDir, reqUrl, read).status != 403
    ensures HandleContained(appDir, reqUrl, read).status == 403
  {
    var dirSegs, rest := ["app"], ["server.js"];
    assert JoinWith(dirSegs, '/') == "app";
    assert appDir == "/" + JoinWith(dirSegs, '/');
    assert [".."] + rest == ["..", "server.js"];
    JoinPair("..", "server.js");
    assert reqUrl == "/" + JoinWith([".."] + rest, '/');
    assert JoinWith(rest, '/') == "server.js";
    assert "server.js"[..6] == "server";
    SiblingAdmitted(dirSegs, rest);
    LiteralPath(appDir, JoinWith(rest, '/'), Resolved(appDir, reqUrl));
  }

  /** The concrete path of `PrefixGuardAdmitsSibling`, spelled out over plain strings so
      that the resolution terms stay out of the step. */
  lemma LiteralPath(appDir: string, name: string, r: string)
    requires appDir == "/app" && name == "server.js" && r == appDir + "/" + name
    ensures r == "/app/server.js"
  {
  }

  // ---------------------------------------------------------------------------------
  // Server state

  /** What `setupLocalServer` resolves to. */
  datatype StartResult = Started(port: nat) | StartFailed(error: string)

  /** The module state of server.js: `activePort`, and the `onBeforeRequest` listener,
      represented by the `hacksByUrl` index its callback closes over. */
  class LocalServer {
    var activePort: Option<nat>
    var listener: Option<map<string, Hack>>

    /** A listener is installed only once a port is active. */
    ghost predicate Valid()
      reads this
    {
      listener.Some? ==> activePort.Some?
    }

    /** Module load: `let activePort = null`, and no listener. */
    constructor ()
      ensures activePort.None? && listener.None?
      ensures Valid()
    {
      activePort := None;
      listener := None;
    }

    /** `setupRequestListener()`: does nothing while `activePort` is null; otherwise
        builds the index and installs a listener over it in place of any earlier one. */
    method SetupRequestListener(catalogue: seq<(string, Hack)>)
      requires Valid()
      modifies this
      ensures Valid()
      ensures activePort == old(activePort)
      ensures old(activePort).None? ==> listener == old(listener)
      ensures old(activePort).Some? ==> listener.Some? && IndexesLast(listener.value, catalogue)
    {
      if activePort.None? {
        return;
      }
      var index := BuildIndex(catalogue);
      listener := Some(index);
    }

    /** `setupLocalServer()`: finds a port, listens on it, and only then sets
        `activePort` and installs the listener. Every failure is returned as
        `{success: false, error}` with the state left as it was. */
    method SetupLocalServer(catalogue: seq<(string, Hack)>, available: int -> bool, listens: nat -> Option<string>)
      returns (r: StartResult)
      requires Valid()
      modifies this
      ensures Valid()
      ensures FirstAvailable(available, DefaultPort).None? ==>
                r == StartFailed(NoPortMessage) && activePort == old(activePort) && listener == old(listener)
      ensures FirstAvailable(available, DefaultPort).Some? ==>
                var port := FirstAvailable(available, DefaultPort).value;
                if listens(port).Some? then
                  r == StartFailed(listens(port).value) && activePort == old(activePort) && listener == old(listener)
                else
                  r == Started(port) && activePort == Some(port)
                  && listener.Some? && IndexesLast(listener.value, catalogue)
    {
      var search := FindAvailablePort(available);
      if search.NoPort? {
        return StartFailed(search.message);
      }
      var port := search.port;
      var error := listens(port);
      if error.Some? {
        return StartFailed(error.value);
      }
      activePort := Some(port);
      SetupRequestListener(catalogue);
      r := Started(port);
    }

    /** What the installed callback answers for a request URL; with no listener every
        request passes unchanged. */
    function Redirect(config: map<string, JsonValue>, cdn: string, url: string): (r: Option<string>)
      requires Valid()
      reads this
      ensures listener.None? ==> r.None?
      ensures listener.Some? ==> r == RedirectFor(listener.value, config, cdn, activePort.value, url)
    {
      if listener.None? then None else RedirectFor(listener.value, config, cdn, activePort.value, url)
    }
  }
}
