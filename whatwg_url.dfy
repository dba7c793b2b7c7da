/** The part of the WHATWG URL Standard that `new URL(url).pathname` depends on, for the
    URLs the hack list holds: an `http` or `https` URL whose host the host parser accepts
    as a domain, with an optional port of digits up to 65535, and with no query, no
    fragment and no character that the path state would percent-encode. The path state
    splits the path at `/`, drops `.` segments, lets `..` remove the previous segment
    (both also in their `%2e` spellings), and appends an empty segment when the path
    ends in a dot segment; the pathname is each segment preceded by `/`.

    The same module derives the three paths `deployHack` computes from a hack's URL:
    the serving path, the file name and the directory it creates. */
module WhatwgUrl {
  import opened Text
  import opened PosixPath

  /** A character the path state copies as it is (no percent-encoding, not a separator). */
  predicate PathChar(c: char)
  {
    '!' <= c <= '~' && c !in "\"#<>?\\^`{}"
  }

  /** A character of the plain hosts the model covers (`name.example:443`). */
  predicate HostChar(c: char)
  {
    ('a' <= c <= 'z') || ('A' <= c <= 'Z') || ('0' <= c <= '9') || c == '.' || c == '-' || c == ':'
  }

  /** An ASCII letter. */
  predicate Letter(c: char)
  {
    ('a' <= c <= 'z') || ('A' <= c <= 'Z')
  }

  /** A character of a domain label: a letter, a digit or `-`. */
  predicate LabelChar(c: char)
  {
    Letter(c) || ('0' <= c <= '9') || c == '-'
  }

  /** A label that domain-to-ASCII would decode as Punycode (`xn--`, in any case). */
  predicate AceLabel(part: string)
  {
    |part| >= 4 && part[0] in "xX" && part[1] in "nN" && part[2] == '-' && part[3] == '-'
  }

  /** A part the host parser keeps: non-empty, of letters, digits and `-`, and not
      Punycode. */
  predicate PlainLabel(part: string)
  {
    part != "" && !AceLabel(part) && forall i :: 0 <= i < |part| ==> LabelChar(part[i])
  }

  /** A domain the host parser accepts as a domain and not as an IPv4 address: plain
      labels, the last of which starts with a letter, so that it does not end in a number
      (a last part of digits, or `0x` and hex digits, makes the parser read an IPv4
      address, and `1.2.3.4.5` fails there). */
  predicate PlainHost(host: string)
  {
    var labels := Split(host, '.');
    (forall i :: 0 <= i < |labels| ==> PlainLabel(labels[i]))
    && Letter(labels[|labels| - 1][0])
  }

  /** A port the port state accepts: decimal digits, possibly none, whose value is at
      most 65535. */
  predicate ValidPort(port: string)
  {
    (forall i :: 0 <= i < |port| ==> '0' <= port[i] <= '9')
    && (port == "" || DecimalValue(port) <= 65535)
  }

  /** The host, and after the first `:` the port, of an authority the parser accepts. */
  predicate ValidAuthority(authority: string)
  {
    var colon := IndexOfChar(authority, ':', 0);
    PlainHost(authority[..colon]) && (colon == |authority| || ValidPort(authority[colon + 1..]))
  }

  /** Length of the scheme and `://`, or 0 for a URL that is neither `http` nor `https`. */
  function SchemeLength(url: string): (n: nat)
    ensures n == 0 || n == 7 || n == 8
  {
    if StartsWith(url, "https://") then 8
    else if StartsWith(url, "http://") then 7
    else 0
  }

  /** Where the path of a URL in scope starts: the first `/` after the host. */
  function PathStart(url: string): (k: nat)
    requires SchemeLength(url) > 0
    ensures SchemeLength(url) <= k <= |url|
    ensures k < |url| ==> url[k] == '/'
    ensures forall j :: SchemeLength(url) <= j < k ==> url[j] != '/'
  {
    IndexOfChar(url, '/', SchemeLength(url))
  }

  /** The URLs this model covers: `new URL` accepts each of them. */
  predicate InScope(url: string)
  {
    SchemeLength(url) > 0
    && PathStart(url) > SchemeLength(url)
    && (forall j :: SchemeLength(url) <= j < PathStart(url) ==> HostChar(url[j]))
    && ValidAuthority(url[SchemeLength(url)..PathStart(url)])
    && (forall j :: PathStart(url) <= j < |url| ==> PathChar(url[j]))
  }

  /** The first `:` of `host:port` ends the host. */
  lemma AuthorityColon(host: string, port: string)
    requires ':' !in host
    ensures var authority := host + ":" + port;
      IndexOfChar(authority, ':', 0) == |host| && authority[..|host|] == host && authority[|host| + 1..] == port
  {
    var authority := host + ":" + port;
    assert authority[|host|] == ':';
    assert forall j :: 0 <= j < |host| ==> authority[j] == host[j];
  }

  /** A port holding anything but digits is refused, as the port state refuses it. */
  lemma NonDigitPortRefused(host: string, port: string, k: nat)
    requires ':' !in host && k < |port| && !('0' <= port[k] <= '9')
    ensures !ValidAuthority(host + ":" + port)
  {
    AuthorityColon(host, port);
  }

  /** A port above 65535 is refused. */
  lemma LargePortRefused(host: string, port: string)
    requires ':' !in host && forall i :: 0 <= i < |port| ==> '0' <= port[i] <= '9'
    requires DecimalValue(port) > 65535
    ensures !ValidAuthority(host + ":" + port)
  {
    AuthorityColon(host, port);
  }

  /** An empty host is refused, as a special URL needs a host. */
  lemma EmptyHostRefused(port: string)
    ensures !ValidAuthority(":" + port)
  {
    AuthorityColon("", port);
    assert ("" + ":" + port) == ":" + port;
    assert Split("", '.') == [""];
  }

  /** A host whose last label starts with a digit ends in a number: it is an IPv4
      address or refused (`1.2.3.4.5`), and in neither case a plain host. */
  lemma NumericLastLabelNotPlain(front: string, last: string)
    requires '.' !in last && last != "" && '0' <= last[0] <= '9'
    ensures !PlainHost(front + ['.'] + last)
  {
    SplitConcat(front, last, '.');
    SplitNoSep(last, '.');
  }

  /** The path exactly as written in the URL: empty, or starting with `/`. */
  function RawPath(url: string): (p: string)
    requires InScope(url)
    ensures p == "" || p[0] == '/'
  {
    url[PathStart(url)..]
  }

  /** The segments the path state reads. An empty path is read as one empty segment. */
  function RawSegments(url: string): (segs: seq<string>)
    requires InScope(url)
    ensures |segs| >= 1 && forall i :: 0 <= i < |segs| ==> '/' !in segs[i]
  {
    var p := RawPath(url);
    if p == "" then [""] else Split(p[1..], '/')
  }

  /** A single-dot path segment: `.` or `%2e`, case-insensitively. */
  predicate SingleDot(seg: string)
  {
    seg == "." || seg == "%2e" || seg == "%2E"
  }

  /** A double-dot path segment: `..` with either dot possibly written `%2e`. */
  predicate DoubleDot(seg: string)
  {
    |seg| >= 2 && exists k :: 0 < k < |seg| && SingleDot(seg[..k]) && SingleDot(seg[k..])
  }

  predicate DotSegment(seg: string)
  {
    SingleDot(seg) || DoubleDot(seg)
  }

  /** "Shorten a URL's path" for a scheme other than `file`. */
  function Shorten(path: seq<string>): seq<string>
  {
    if path == [] then [] else path[..|path| - 1]
  }

  /** One step of the path state, for a segment that is the last one or is followed by `/`. */
  function Step(path: seq<string>, seg: string, last: bool): seq<string>
  {
    if DoubleDot(seg) then Shorten(path) + (if last then [""] else [])
    else if SingleDot(seg) then path + (if last then [""] else [])
    else path + [seg]
  }

  /** The path state over the remaining segments. */
  function Walk(path: seq<string>, segs: seq<string>): seq<string>
    decreases |segs|
  {
    if segs == [] then path
    else Walk(Step(path, segs[0], |segs| == 1), segs[1..])
  }

  /** The URL's path: the list of segments the parser builds. */
  function PathList(url: string): seq<string>
    requires InScope(url)
  {
    Walk([], RawSegments(url))
  }

  /** URL path serialisation: each segment preceded by `/`. */
  function Serialize(path: seq<string>): string
  {
    if path == [] then "" else "/" + path[0] + Serialize(path[1..])
  }

  /** `new URL(url).pathname`: the path of a special URL is never empty, so its pathname
      starts with `/`. */
  function Pathname(url: string): (r: string)
    requires InScope(url)
    ensures |r| >= 1 && r[0] == '/'
  {
    WalkLast([], RawSegments(url));
    Serialize(PathList(url))
  }

  /** The segments the parser keeps are never dot segments; the kept list holds only
      segments of the input and empty ones. */
  lemma {:induction false} WalkKeepsNoDots(path: seq<string>, segs: seq<string>)
    requires forall i :: 0 <= i < |path| ==> !DotSegment(path[i]) && '/' !in path[i]
    requires forall i :: 0 <= i < |segs| ==> '/' !in segs[i]
    ensures var r := Walk(path, segs);
            forall i :: 0 <= i < |r| ==> !DotSegment(r[i]) && '/' !in r[i]
    decreases |segs|
  {
    if segs != [] {
      var next := Step(path, segs[0], |segs| == 1);
      StepKeepsNoDots(path, segs[0], |segs| == 1);
      WalkKeepsNoDots(next, segs[1..]);
      assert Walk(path, segs) == Walk(next, segs[1..]);
    }
  }

  lemma StepKeepsNoDots(path: seq<string>, seg: string, last: bool)
    requires forall i :: 0 <= i < |path| ==> !DotSegment(path[i]) && '/' !in path[i]
    requires '/' !in seg
    ensures var next := Step(path, seg, last);
            forall i :: 0 <= i < |next| ==> !DotSegment(next[i]) && '/' !in next[i]
  {
    var next := Step(path, seg, last);
    EmptyNotDot();
    forall i | 0 <= i < |next| ensures !DotSegment(next[i]) && '/' !in next[i] {
      if DoubleDot(seg) {
        var short := Shorten(path);
        if i < |short| { assert next[i] == path[i]; } else { assert next[i] == ""; }
      } else if SingleDot(seg) {
        if i < |path| { assert next[i] == path[i]; } else { assert next[i] == ""; }
      } else {
        if i < |path| { assert next[i] == path[i]; } else { assert next[i] == seg; }
      }
    }
  }

  lemma EmptyNotDot()
    ensures !DotSegment("")
  {
  }

  /** The parser's last step always adds a segment, so a walk that reads at least one
      segment ends with the last one when that is no dot segment, and with an empty one
      otherwise. */
  lemma {:induction false} WalkLast(path: seq<string>, segs: seq<string>)
    requires |segs| >= 1
    ensures var r := Walk(path, segs);
            |r| >= 1 && r[|r| - 1] == (if DotSegment(segs[|segs| - 1]) then "" else segs[|segs| - 1])
    decreases |segs|
  {
    if |segs| > 1 {
      WalkLast(Step(path, segs[0], false), segs[1..]);
    }
  }

  /** Serialising a non-empty path is `/` followed by its `/`-join. */
  lemma {:induction false} SerializeJoin(path: seq<string>)
    requires |path| >= 1
    ensures Serialize(path) == "/" + JoinWith(path, '/')
    decreases |path|
  {
    if |path| > 1 {
      SerializeJoin(path[1..]);
      SerializeAssoc(path[0], JoinWith(path[1..], '/'), Serialize(path[1..]), Serialize(path), JoinWith(path, '/'));
    }
  }

  lemma SerializeAssoc(head: string, rest: string, serialized: string, whole: string, joined: string)
    requires serialized == "/" + rest
    requires whole == "/" + head + serialized
    requires joined == head + ['/'] + rest
    ensures whole == "/" + joined
  {
  }

  /** The text after the last `/` of the URL: the match of `/[^/]*$/`. */
  function SwfName(url: string): (name: string)
    ensures '/' !in name
  {
    LastPart(url, '/')
  }

  /** `path.join("server", new URL(url).pathname)`: a relative path, read against the
      working directory. */
  function ServingPath(url: string): (r: string)
    requires InScope(url)
    ensures r != "" && !IsAbsolute(r)
  {
    assert NonEmptyParts(["server", Pathname(url)])[0] == "server";
    PosixPath.Join(["server", Pathname(url)])
  }

  /** `s.slice(0, -n)`: `-0` is `0`, so a zero `n` gives the empty string. */
  function SliceDropEnd(s: string, n: nat): (r: string)
    ensures n == 0 ==> r == ""
    ensures 0 < n <= |s| ==> r == s[..|s| - n]
    ensures n > |s| ==> r == ""
  {
    if n == 0 || n > |s| then "" else s[..|s| - n]
  }

  /** The directory `deployHack` creates: the serving path with as many characters cut
      off its end as the file name has, or the empty path when the name is empty or
      longer than the serving path. */
  function MkdirTarget(url: string): (r: string)
    requires InScope(url)
    ensures r == "" || |r| + |SwfName(url)| == |ServingPath(url)|
    ensures |r| <= |ServingPath(url)| && r == ServingPath(url)[..|r|]
  {
    SliceDropEnd(ServingPath(url), |SwfName(url)|)
  }

  /** A URL in scope whose last path segment names a file: non-empty and not a dot
      segment. */
  predicate FileUrl(url: string)
  {
    InScope(url)
    && var segs := RawSegments(url);
       var last := segs[|segs| - 1];
       last != "" && !DotSegment(last)
  }

  /** The segments of the serving path below `server`. */
  function ServedSegments(url: string): seq<string>
    requires InScope(url)
  {
    Kept(PathList(url))
  }

  /** The file name is the last raw segment. */
  lemma SwfNameIsLastSegment(url: string)
    requires InScope(url)
    requires RawPath(url) != ""
    ensures var segs := RawSegments(url); SwfName(url) == segs[|segs| - 1]
  {
    var k := PathStart(url);
    assert RawPath(url)[1..] == url[k + 1..];
    LastPartAfter(url, k);
  }

  /** The last part of a string is the last part of what follows any separator in it. */
  lemma LastPartAfter(s: string, k: nat)
    requires k < |s| && s[k] == '/'
    ensures LastPart(s, '/') == LastPart(s[k + 1..], '/')
  {
    var a, b := s[..k], s[k + 1..];
    assert s == a + ['/'] + b;
    LastPartConcat(a, b, '/');
  }

  /** For a file URL, the derived paths fit together:
      the serving path is `server` followed by ordinary segments, the last of which is the
      file name, and the directory created plus the file name is the serving path. */
  lemma {:induction false} FileUrlPaths(url: string)
    requires FileUrl(url)
    ensures var sp, name := ServingPath(url), SwfName(url);
            var segs := ServedSegments(url);
            && |segs| >= 1 && AllOrdinary(["server"] + segs)
            && sp == JoinWith(["server"] + segs, '/')
            && name == segs[|segs| - 1] && Ordinary(name) && !DotSegment(name)
            && MkdirTarget(url) + name == sp
            && |name| < |sp|
  {
    var path := PathList(url);
    PathListFacts(url);
    var last := path[|path| - 1];
    SerializeJoin(path);
    assert Pathname(url) == "/" + JoinWith(path, '/');
    JoinBaseWithPath("server", path);
    SwfNameIsLastSegment(url);
    var segs := Kept(path);
    var sp := ServingPath(url);
    assert sp == JoinWith(["server"] + segs, '/');
    JoinLastSegment(["server"] + segs, sp, last);
  }

  /** For a file URL the parsed path is non-empty, holds no dot segment and no `/`, and
      ends with the last raw segment, which is ordinary. */
  lemma PathListFacts(url: string)
    requires FileUrl(url)
    ensures var path, raw := PathList(url), RawSegments(url);
            && |path| >= 1 && path[|path| - 1] == raw[|raw| - 1]
            && Ordinary(raw[|raw| - 1]) && !DotSegment(raw[|raw| - 1])
            && RawPath(url) != ""
            && forall i :: 0 <= i < |path| ==> '/' !in path[i] && path[i] != "." && path[i] != ".." && !DotSegment(path[i])
  {
    WalkedFile(RawSegments(url));
  }

  /** Parsing raw segments whose last one names a file. */
  lemma WalkedFile(raw: seq<string>)
    requires |raw| >= 1 && forall i :: 0 <= i < |raw| ==> '/' !in raw[i]
    requires raw[|raw| - 1] != "" && !DotSegment(raw[|raw| - 1])
    ensures var path := Walk([], raw);
            && |path| >= 1 && path[|path| - 1] == raw[|raw| - 1]
            && Ordinary(raw[|raw| - 1])
            && forall i :: 0 <= i < |path| ==> '/' !in path[i] && path[i] != "." && path[i] != ".." && !DotSegment(path[i])
  {
    WalkKeepsNoDots([], raw);
    WalkLast([], raw);
    NoDotsPlain(Walk([], raw));
    NotDotOrdinary(raw[|raw| - 1]);
  }

  /** Segments that are no dot segments are neither `.` nor `..`. */
  lemma NoDotsPlain(path: seq<string>)
    requires forall i :: 0 <= i < |path| ==> !DotSegment(path[i])
    ensures forall i :: 0 <= i < |path| ==> path[i] != "." && path[i] != ".."
  {
    forall i | 0 <= i < |path| ensures path[i] != ".." {
      if path[i] == ".." {
        DotDotIsDoubleDot(path[i]);
      }
    }
  }

  lemma NotDotOrdinary(seg: string)
    requires seg != "" && !DotSegment(seg)
    ensures Ordinary(seg)
  {
    if seg == ".." {
      DotDotIsDoubleDot(seg);
    }
  }

  lemma DotDotIsDoubleDot(seg: string)
    requires seg == ".."
    ensures DoubleDot(seg)
  {
    assert SingleDot(seg[..1]) && SingleDot(seg[1..]);
  }

  /** A join ends with `/` and its last part, so cutting the last part off leaves the
      join of the others and a `/`. */
  lemma JoinLastSegment(parts: seq<string>, joined: string, last: string)
    requires |parts| >= 2 && joined == JoinWith(parts, '/') && last == parts[|parts| - 1] && last != ""
    ensures |last| < |joined|
    ensures SliceDropEnd(joined, |last|) + last == joined
    ensures SliceDropEnd(joined, |last|) == JoinWith(parts[..|parts| - 1], '/') + "/"
  {
    var init := parts[..|parts| - 1];
    assert parts == init + [last];
    JoinWithAppend(init, [last], '/');
    assert JoinWith([last], '/') == last;
    SliceTail(JoinWith(init, '/'), last, joined);
  }

  lemma SliceTail(init: string, last: string, joined: string)
    requires joined == init + ['/'] + last && last != ""
    ensures |last| < |joined|
    ensures SliceDropEnd(joined, |last|) == init + "/"
    ensures SliceDropEnd(joined, |last|) + last == joined
  {
    assert joined[..|joined| - |last|] == init + "/";
  }

  /** Without dot segments the parser keeps the raw segments as they are. */
  lemma {:induction false} WalkClean(path: seq<string>, segs: seq<string>)
    requires forall i :: 0 <= i < |segs| ==> !DotSegment(segs[i])
    ensures Walk(path, segs) == path + segs
    decreases |segs|
  {
    if segs == [] {
      assert path + segs == path;
    } else {
      assert (path + [segs[0]]) + segs[1..] == path + segs;
      WalkClean(path + [segs[0]], segs[1..]);
    }
  }

  /** A URL whose path has no dot segments has the raw path as its pathname. */
  lemma CleanPathname(url: string)
    requires InScope(url) && RawPath(url) != ""
    requires forall i :: 0 <= i < |RawSegments(url)| ==> !DotSegment(RawSegments(url)[i])
    ensures Pathname(url) == RawPath(url)
  {
    var raw := RawSegments(url);
    WalkClean([], raw);
    assert [] + raw == raw;
    SerializeJoin(raw);
    var p := RawPath(url);
    JoinSplit(p[1..], '/');
    assert p == [p[0]] + p[1..];
  }
}
