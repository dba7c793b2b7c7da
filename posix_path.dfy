/** Node's `path.posix` functions as the core uses them: `normalize`, `join` and `resolve`
    of an absolute path. Node's `normalizeString` walks the `/`-separated segments with a
    stack: empty and `.` segments are dropped, `..` pops the last kept segment, and a `..`
    with nothing to pop is kept only for relative paths. */
module PosixPath {
  import opened Text

  /** A segment the normaliser keeps as it is. */
  predicate Ordinary(seg: string)
  {
    seg != "" && seg != "." && seg != ".."
  }

  /** All segments ordinary and free of `/`. */
  predicate AllOrdinary(segs: seq<string>)
  {
    forall i :: 0 <= i < |segs| ==> Ordinary(segs[i]) && '/' !in segs[i]
  }

  /** One step of `normalizeString`. */
  function PushSegment(stack: seq<string>, seg: string, allowAboveRoot: bool): seq<string>
  {
    if seg == "" || seg == "." then stack
    else if seg == ".." then
      if |stack| > 0 && stack[|stack| - 1] != ".." then stack[..|stack| - 1]
      else if allowAboveRoot then stack + [".."]
      else stack
    else stack + [seg]
  }

  /** The segments `normalizeString` keeps, walking `segs` from left to right. The result
      holds no empty or `.` segment, and a `..` only where going above the start is
      allowed; every other segment is one of the input's. */
  function ResolveSegments(segs: seq<string>, allowAboveRoot: bool): (r: seq<string>)
    ensures forall i :: 0 <= i < |r| ==>
              r[i] != "" && r[i] != "." && (r[i] == ".." ==> allowAboveRoot) && (r[i] == ".." || r[i] in segs)
  {
    if segs == [] then []
    else
      var prev := ResolveSegments(segs[..|segs| - 1], allowAboveRoot);
      assert forall x :: x in segs[..|segs| - 1] ==> x in segs;
      PushSegment(prev, segs[|segs| - 1], allowAboveRoot)
  }

  /** The segments of `segs` that are neither empty nor `.`. */
  function Kept(segs: seq<string>): (r: seq<string>)
    ensures forall i :: 0 <= i < |r| ==> r[i] != "" && r[i] != "." && r[i] in segs
  {
    if segs == [] then []
    else
      var prev := Kept(segs[..|segs| - 1]);
      var last := segs[|segs| - 1];
      assert forall x :: x in segs[..|segs| - 1] ==> x in segs;
      if last == "" || last == "." then prev else prev + [last]
  }

  /** Without `..` segments, resolving only drops the empty and `.` segments. */
  lemma {:induction false} ResolveAppendNoDotDot(a: seq<string>, b: seq<string>, allowAboveRoot: bool)
    requires forall i :: 0 <= i < |b| ==> b[i] != ".."
    ensures ResolveSegments(a + b, allowAboveRoot) == ResolveSegments(a, allowAboveRoot) + Kept(b)
    decreases |b|
  {
    if b == [] {
      assert a + b == a;
    } else {
      var b' := b[..|b| - 1];
      assert (a + b)[..|a + b| - 1] == a + b';
      ResolveAppendNoDotDot(a, b', allowAboveRoot);
    }
  }

  /** Ordinary segments are kept as they are. */
  lemma {:induction false} KeptOrdinary(segs: seq<string>)
    requires AllOrdinary(segs)
    ensures Kept(segs) == segs
    decreases |segs|
  {
    if segs != [] {
      KeptOrdinary(segs[..|segs| - 1]);
    }
  }

  /** Resolving a list of ordinary segments changes nothing. */
  lemma ResolveOrdinary(segs: seq<string>, allowAboveRoot: bool)
    requires AllOrdinary(segs)
    ensures ResolveSegments(segs, allowAboveRoot) == segs
  {
    ResolveAppendNoDotDot([], segs, allowAboveRoot);
    KeptOrdinary(segs);
    assert [] + segs == segs;
  }

  /** `normalizeString(p, allowAboveRoot)`. */
  function NormalizeString(p: string, allowAboveRoot: bool): string
  {
    JoinWith(ResolveSegments(Split(p, '/'), allowAboveRoot), '/')
  }

  /** `path.posix.normalize(p)`: never empty; absolute exactly when `p` is, and ending
      in `/` when `p` does. */
  function Normalize(p: string): (r: string)
    ensures r != ""
    ensures IsAbsolute(r) <==> IsAbsolute(p)
    ensures p != "" && p[|p| - 1] == '/' ==> r[|r| - 1] == '/'
  {
    if p == "" then "."
    else
      var absolute := p[0] == '/';
      var trailing := p[|p| - 1] == '/';
      var segs := ResolveSegments(Split(p, '/'), !absolute);
      var body := NormalizeString(p, !absolute);
      assert body != "" ==> body[0] != '/' by {
        if segs != [] {
          JoinWithEnds(segs, '/');
          assert segs[0] == ".." || segs[0] in Split(p, '/');
        }
      }
      if body == "" then (if absolute then "/" else if trailing then "./" else ".")
      else (if absolute then "/" else "") + body + (if trailing then "/" else "")
  }

  /** The non-empty arguments, in order. */
  function NonEmptyParts(parts: seq<string>): (r: seq<string>)
    ensures forall i :: 0 <= i < |r| ==> r[i] != ""
  {
    if parts == [] then []
    else if parts[0] == "" then NonEmptyParts(parts[1..])
    else [parts[0]] + NonEmptyParts(parts[1..])
  }

  /** `path.posix.join(...parts)`: the non-empty arguments joined by `/`, normalised.
      It is never empty, and absolute exactly when its first non-empty argument is. */
  function Join(parts: seq<string>): (r: string)
    ensures r != ""
    ensures NonEmptyParts(parts) != [] ==> (IsAbsolute(r) <==> IsAbsolute(NonEmptyParts(parts)[0]))
    ensures NonEmptyParts(parts) == [] ==> r == "."
  {
    var given := NonEmptyParts(parts);
    if given == [] then "."
    else
      JoinWithEnds(given, '/');
      Normalize(JoinWith(given, '/'))
  }

  predicate IsAbsolute(p: string)
  {
    |p| > 0 && p[0] == '/'
  }

  /** `path.posix.resolve(p)` for an absolute `p`: normalised, absolute, and with no
      trailing `/` unless it is the root. */
  function ResolveAbsolute(p: string): (r: string)
    requires IsAbsolute(p)
    ensures IsAbsolute(r)
    ensures r == "/" || r[|r| - 1] != '/'
  {
    var segs := ResolveSegments(Split(p + "/", '/'), false);
    assert segs != [] ==> JoinWith(segs, '/')[|JoinWith(segs, '/')| - 1] != '/' by {
      if segs != [] {
        var last := segs[|segs| - 1];
        assert last in Split(p + "/", '/');
        LastCharOfJoin(segs, '/');
      }
    }
    "/" + NormalizeString(p + "/", false)
  }

  /** `p` is `root` or lies below it, segment-wise. */
  predicate Contains(root: string, p: string)
  {
    p == root || StartsWith(p, root + "/")
  }

  /** Joining ordinary segments needs no normalisation. */
  lemma JoinOrdinary(parts: seq<string>)
    requires |parts| >= 1 && AllOrdinary(parts)
    ensures Join(parts) == JoinWith(parts, '/')
  {
    NonEmptyPartsOrdinary(parts);
    var s := JoinWith(parts, '/');
    assert forall i :: 0 <= i < |parts| ==> '/' !in parts[i];
    SplitJoin(parts, '/');
    ResolveOrdinary(parts, true);
    assert forall i :: 0 <= i < |parts| ==> parts[i] != "";
    JoinWithEnds(parts, '/');
    assert s != "" && s[0] != '/' && s[|s| - 1] != '/' by {
      assert parts[0][0] in parts[0];
      var last := parts[|parts| - 1];
      assert last[|last| - 1] in last;
    }
    assert NormalizeString(s, true) == s;
    NormalizeRelative(s);
  }

  /** A relative path without a trailing `/` normalises to its `normalizeString`. */
  lemma NormalizeRelative(s: string)
    requires s != "" && s[0] != '/' && s[|s| - 1] != '/'
    requires NormalizeString(s, true) != ""
    ensures Normalize(s) == NormalizeString(s, true)
  {
    var body := NormalizeString(s, true);
    assert Normalize(s) == "" + body + "";
    assert "" + body + "" == body;
  }

  lemma {:induction false} NonEmptyPartsOrdinary(parts: seq<string>)
    requires AllOrdinary(parts)
    ensures NonEmptyParts(parts) == parts
    decreases |parts|
  {
    if parts != [] {
      NonEmptyPartsOrdinary(parts[1..]);
    }
  }

  /** The first and last characters of a join of non-empty parts are those of its first
      and last parts. */
  lemma {:induction false} JoinWithEnds(parts: seq<string>, sep: char)
    requires |parts| >= 1 && forall i :: 0 <= i < |parts| ==> parts[i] != ""
    ensures |JoinWith(parts, sep)| >= |parts[0]|
    ensures JoinWith(parts, sep)[0] == parts[0][0]
    ensures JoinWith(parts, sep)[|JoinWith(parts, sep)| - 1] == parts[|parts| - 1][|parts[|parts| - 1]| - 1]
    decreases |parts|
  {
    if |parts| > 1 {
      JoinWithEnds(parts[1..], sep);
    }
  }

  /** `path.join(base, "/" + s1 + "/" + ... + "/" + sn)` for a plain `base` and segments
      without `.` or `..`: the empty segments disappear, and when the last segment is
      ordinary the result ends with `/` and that segment. */
  lemma JoinBaseWithPath(base: string, segs: seq<string>)
    requires Ordinary(base) && '/' !in base
    requires |segs| >= 1 && Ordinary(segs[|segs| - 1])
    requires forall i :: 0 <= i < |segs| ==> '/' !in segs[i] && segs[i] != "." && segs[i] != ".."
    ensures Join([base, "/" + JoinWith(segs, '/')]) == JoinWith([base] + Kept(segs), '/')
    ensures AllOrdinary([base] + Kept(segs))
    ensures |Kept(segs)| >= 1 && Kept(segs)[|Kept(segs)| - 1] == segs[|segs| - 1]
  {
    var path := "/" + JoinWith(segs, '/');
    var joined := JoinWith([base, path], '/');
    JoinPairParts(base, path);
    var all := [base] + ([""] + segs);
    JoinBaseSegments(base, segs);
    assert JoinWith(all, '/') == joined;
    SepFreeBase(all, base, segs);
    SplitJoin(all, '/');
    ResolveBaseSegments(base, segs);
    var r := [base] + Kept(segs);
    KeptLastOrdinary(segs);
    AllOrdinaryBase(base, segs);
    assert NormalizeString(joined, true) == JoinWith(r, '/');
    assert forall i :: 0 <= i < |r| ==> r[i] != "";
    JoinWithEnds(r, '/');
    JoinEndsBase(base, segs, joined);
    NormalizeRelative(joined);
  }

  /** `[base, path]` are both kept by `join`, and joined with one `/`. */
  lemma JoinPairParts(base: string, path: string)
    requires base != "" && path != ""
    ensures NonEmptyParts([base, path]) == [base, path]
    ensures JoinWith([base, path], '/') == base + "/" + path
  {
    assert [base, path][1..] == [path];
    assert [path][1..] == [];
    assert NonEmptyParts([path]) == [path] + NonEmptyParts([]);
    assert NonEmptyParts([base, path]) == [base] + NonEmptyParts([path]);
    assert JoinWith([path], '/') == path;
  }

  /** The text `base + "/" + "/" + s1 + ... + sn` is the join of `[base, ""] + segs`. */
  lemma JoinBaseSegments(base: string, segs: seq<string>)
    requires |segs| >= 1
    ensures JoinWith([base] + ([""] + segs), '/') == base + "/" + ("/" + JoinWith(segs, '/'))
  {
    JoinWithCons(base, [""] + segs, '/');
    JoinWithCons("", segs, '/');
    AssocPrefix(base, JoinWith(segs, '/'), JoinWith([""] + segs, '/'), JoinWith([base] + ([""] + segs), '/'));
  }

  lemma AssocPrefix(base: string, a: string, b: string, c: string)
    requires b == "" + ['/'] + a && c == base + ['/'] + b
    ensures c == base + "/" + ("/" + a)
  {
  }

  lemma SepFreeBase(all: seq<string>, base: string, segs: seq<string>)
    requires all == [base] + ([""] + segs) && '/' !in base
    requires forall i :: 0 <= i < |segs| ==> '/' !in segs[i]
    ensures forall i :: 0 <= i < |all| ==> '/' !in all[i]
  {
    forall i | 0 <= i < |all| ensures '/' !in all[i] {
      if i >= 2 {
        assert all[i] == segs[i - 2];
      }
    }
  }

  /** Resolving `[base, ""] + segs` keeps `base` and the non-empty segments. */
  lemma ResolveBaseSegments(base: string, segs: seq<string>)
    requires Ordinary(base)
    requires forall i :: 0 <= i < |segs| ==> segs[i] != ".."
    ensures ResolveSegments([base] + ([""] + segs), true) == [base] + Kept(segs)
  {
    assert [base] + ([""] + segs) == [base, ""] + segs;
    ResolveAppendNoDotDot([base, ""], segs, true);
    ResolvePair(base);
  }

  lemma ResolvePair(base: string)
    requires Ordinary(base)
    ensures ResolveSegments([base, ""], true) == [base]
  {
    assert [base][..0] == [];
    assert ResolveSegments([base], true) == PushSegment([], base, true);
    assert [base, ""][..1] == [base];
    assert ResolveSegments([base, ""], true) == PushSegment([base], "", true);
  }

  /** An ordinary last segment is the last kept one. */
  lemma KeptLastOrdinary(segs: seq<string>)
    requires |segs| >= 1 && Ordinary(segs[|segs| - 1])
    ensures |Kept(segs)| >= 1 && Kept(segs)[|Kept(segs)| - 1] == segs[|segs| - 1]
  {
  }

  lemma AllOrdinaryBase(base: string, segs: seq<string>)
    requires Ordinary(base) && '/' !in base
    requires forall i :: 0 <= i < |segs| ==> '/' !in segs[i] && segs[i] != "." && segs[i] != ".."
    ensures AllOrdinary([base] + Kept(segs))
  {
    var kept := Kept(segs);
    var r := [base] + kept;
    forall i | 0 <= i < |r| ensures Ordinary(r[i]) && '/' !in r[i] {
      if i > 0 {
        assert r[i] == kept[i - 1];
        assert r[i] in segs;
      }
    }
  }

  /** `base + "/" + "/" + s1 + ... + sn` starts like `base` and ends like `sn`. */
  lemma JoinEndsBase(base: string, segs: seq<string>, joined: string)
    requires base != "" && '/' !in base
    requires |segs| >= 1 && segs[|segs| - 1] != "" && '/' !in segs[|segs| - 1]
    requires joined == base + "/" + ("/" + JoinWith(segs, '/'))
    ensures joined != "" && joined[0] != '/' && joined[|joined| - 1] != '/'
  {
    var last := segs[|segs| - 1];
    LastCharOfJoin(segs, '/');
    assert joined[0] == base[0] && base[0] in base;
    assert joined[|joined| - 1] == last[|last| - 1] && last[|last| - 1] in last;
  }

  /** A join ends with the last character of its last part, when that part is non-empty. */
  lemma {:induction false} LastCharOfJoin(parts: seq<string>, sep: char)
    requires |parts| >= 1 && parts[|parts| - 1] != ""
    ensures var j := JoinWith(parts, sep);
            |j| >= 1 && j[|j| - 1] == parts[|parts| - 1][|parts[|parts| - 1]| - 1]
    decreases |parts|
  {
    if |parts| > 1 {
      LastCharOfJoin(parts[1..], sep);
    }
  }

  /** The `/`-joined segment list as an absolute path, with or without a trailing `/`,
      resolves to itself without the trailing `/`. */
  lemma ResolveAbsoluteOrdinary(segs: seq<string>, trailing: bool)
    requires |segs| >= 1 && AllOrdinary(segs)
    ensures var p := "/" + JoinWith(segs, '/') + (if trailing then "/" else "");
            IsAbsolute(p) && ResolveAbsolute(p) == "/" + JoinWith(segs, '/')
  {
    var p := "/" + JoinWith(segs, '/') + (if trailing then "/" else "");
    var tail := if trailing then ["", ""] else [""];
    PaddedSplit(segs, trailing, tail);
    ResolveAbsoluteSegments(segs, tail);
  }

  /** The segments of `p + "/"` for the path `p` above. */
  lemma PaddedSplit(segs: seq<string>, trailing: bool, tail: seq<string>)
    requires |segs| >= 1 && AllOrdinary(segs)
    requires tail == if trailing then ["", ""] else [""]
    ensures Split("/" + JoinWith(segs, '/') + (if trailing then "/" else "") + "/", '/') == [""] + segs + tail
  {
    PaddedJoin(segs, trailing, tail);
    AbsoluteSplit(segs, tail);
  }

  lemma PaddedJoin(segs: seq<string>, trailing: bool, tail: seq<string>)
    requires |segs| >= 1 && AllOrdinary(segs)
    requires tail == if trailing then ["", ""] else [""]
    ensures "/" + JoinWith(segs, '/') + (if trailing then "/" else "") + "/" == JoinWith([""] + segs + tail, '/')
  {
    AbsoluteSplit(segs, tail);
    if trailing {
      assert JoinWith(tail, '/') == "/" by { assert tail[1..] == [""]; }
    }
  }

  /** The textual shape of `"/" + s1 + "/" + ... + sn` followed by empty segments. */
  lemma AbsoluteSplit(segs: seq<string>, tail: seq<string>)
    requires |segs| >= 1 && AllOrdinary(segs)
    requires |tail| >= 1 && forall i :: 0 <= i < |tail| ==> tail[i] == ""
    ensures JoinWith([""] + segs + tail, '/') == "/" + JoinWith(segs, '/') + "/" + JoinWith(tail, '/')
    ensures Split(JoinWith([""] + segs + tail, '/'), '/') == [""] + segs + tail
  {
    var rest := segs + tail;
    assert [""] + segs + tail == [""] + rest;
    JoinWithCons("", rest, '/');
    JoinWithAppend(segs, tail, '/');
    AssocSlash(JoinWith(segs, '/'), JoinWith(tail, '/'), JoinWith(rest, '/'), JoinWith([""] + rest, '/'));
    SepFreeParts([""] + rest, segs, tail);
    SplitJoin([""] + rest, '/');
  }

  lemma AssocSlash(a: string, b: string, c: string, d: string)
    requires c == a + ['/'] + b && d == "" + ['/'] + c
    ensures d == "/" + a + "/" + b
  {
  }

  lemma SepFreeParts(all: seq<string>, segs: seq<string>, tail: seq<string>)
    requires all == [""] + (segs + tail)
    requires AllOrdinary(segs)
    requires forall i :: 0 <= i < |tail| ==> tail[i] == ""
    ensures forall i :: 0 <= i < |all| ==> '/' !in all[i]
  {
    forall i | 0 <= i < |all| ensures '/' !in all[i] {
      if 0 < i <= |segs| {
        assert all[i] == segs[i - 1];
      } else if i > |segs| {
        assert all[i] == tail[i - 1 - |segs|];
      }
    }
  }

  /** Resolving `[""] + segs + tail` without going above the root keeps exactly `segs`. */
  lemma ResolveAbsoluteSegments(segs: seq<string>, tail: seq<string>)
    requires AllOrdinary(segs)
    requires forall i :: 0 <= i < |tail| ==> tail[i] == ""
    ensures ResolveSegments([""] + segs + tail, false) == segs
  {
    ResolveAppendNoDotDot([""] + segs, tail, false);
    ResolveAppendNoDotDot([""], segs, false);
    assert ResolveSegments([""], false) == [] by {
      assert [""][..0] == [];
    }
    KeptOrdinary(segs);
    KeptEmpty(tail);
    assert [] + segs == segs;
    assert segs + [] == segs;
  }

  lemma {:induction false} KeptEmpty(segs: seq<string>)
    requires forall i :: 0 <= i < |segs| ==> segs[i] == ""
    ensures Kept(segs) == []
    decreases |segs|
  {
    if segs != [] {
      KeptEmpty(segs[..|segs| - 1]);
    }
  }

  /** Keeping segments distributes over concatenation. */
  lemma {:induction false} KeptAppend(a: seq<string>, b: seq<string>)
    ensures Kept(a + b) == Kept(a) + Kept(b)
    decreases |b|
  {
    if b == [] {
      assert a + b == a;
    } else {
      var b' := b[..|b| - 1];
      assert (a + b)[..|a + b| - 1] == a + b';
      KeptAppend(a, b');
    }
  }

  /** `"/" + s1 + "/" + ... + sn` splits into an empty first part and the segments. */
  lemma SplitRooted(segs: seq<string>)
    requires |segs| >= 1 && forall i :: 0 <= i < |segs| ==> '/' !in segs[i]
    ensures Split("/" + JoinWith(segs, '/'), '/') == [""] + segs
  {
    assert "/" + JoinWith(segs, '/') == "" + ['/'] + JoinWith(segs, '/');
    SplitCons("", JoinWith(segs, '/'), '/');
    SplitJoin(segs, '/');
  }

  /** Without `..`, resolving the parts of an absolute path keeps the segments that are
      neither empty nor `.`. */
  lemma ResolveRooted(xs: seq<string>)
    requires forall i :: 0 <= i < |xs| ==> xs[i] != ".."
    ensures ResolveSegments([""] + xs, false) == Kept(xs)
  {
    ResolveAppendNoDotDot([""], xs, false);
    assert ResolveSegments([""], false) == [] by {
      assert [""][..0] == [];
    }
  }

  /** The segments `path.resolve` and `normalize` keep for an absolute path. */
  function AbsoluteSegments(p: string): (r: seq<string>)
    ensures AllOrdinary(r)
  {
    var parts := Split(p, '/');
    var r := ResolveSegments(parts, false);
    assert forall i :: 0 <= i < |r| ==> '/' !in r[i] by {
      forall i | 0 <= i < |r| ensures '/' !in r[i] {
        var k :| 0 <= k < |parts| && parts[k] == r[i];
      }
    }
    r
  }

  /** `normalize` of an absolute path is `/`, its kept segments joined, and a trailing
      `/` when the input had one and something is left. */
  lemma NormalizeAbsolute(p: string)
    requires IsAbsolute(p)
    ensures var r := AbsoluteSegments(p);
            Normalize(p) == "/" + JoinWith(r, '/') + (if p[|p| - 1] == '/' && r != [] then "/" else "")
  {
    var r := AbsoluteSegments(p);
    if r != [] {
      JoinWithEnds(r, '/');
    }
  }

  /** `path.resolve` of a normalised absolute path drops its trailing `/`. */
  lemma ResolveNormal(r: seq<string>, trailing: bool)
    requires AllOrdinary(r)
    ensures var p := "/" + JoinWith(r, '/') + (if trailing && r != [] then "/" else "");
            IsAbsolute(p) && ResolveAbsolute(p) == "/" + JoinWith(r, '/')
  {
    if r != [] {
      ResolveAbsoluteOrdinary(r, trailing);
    } else {
      assert "/" + JoinWith(r, '/') + "" + "/" == "" + ['/'] + ("" + ['/'] + "");
      SplitCons("", "" + ['/'] + "", '/');
      SplitCons("", "", '/');
      SplitNoSep("", '/');
      assert Split("//", '/') == [""] + ["", ""];
      ResolveRooted(["", ""]);
      KeptEmpty(["", ""]);
    }
  }

  /** `path.resolve(path.normalize(p))` for an absolute `p`. */
  lemma ResolveOfNormalize(p: string)
    requires IsAbsolute(p)
    ensures IsAbsolute(Normalize(p))
    ensures ResolveAbsolute(Normalize(p)) == "/" + JoinWith(AbsoluteSegments(p), '/')
  {
    NormalizeAbsolute(p);
    ResolveNormal(AbsoluteSegments(p), p[|p| - 1] == '/');
  }

  /** `path.join` keeps an absolute first argument absolute. */
  lemma JoinAbsolute(parts: seq<string>)
    requires |parts| >= 1 && IsAbsolute(parts[0])
    ensures var given := NonEmptyParts(parts);
            given != [] && IsAbsolute(JoinWith(given, '/')) && Join(parts) == Normalize(JoinWith(given, '/'))
  {
    var given := NonEmptyParts(parts);
    assert given == [parts[0]] + NonEmptyParts(parts[1..]);
    JoinWithEnds(given, '/');
  }

  /** `path.resolve(path.join(...parts))` for an absolute first part: the segments the
      joined text keeps, below the root. */
  lemma ResolvedJoin(parts: seq<string>)
    requires |parts| >= 1 && IsAbsolute(parts[0])
    ensures IsAbsolute(Join(parts))
    ensures ResolveAbsolute(Join(parts)) == "/" + JoinWith(AbsoluteSegments(JoinWith(NonEmptyParts(parts), '/')), '/')
  {
    JoinAbsolute(parts);
    ResolveOfNormalize(JoinWith(NonEmptyParts(parts), '/'));
  }

  /** `path.join(x, y)` of two `/`-joined lists of ordinary segments joins the lists. */
  lemma JoinTwoOrdinary(xs: seq<string>, ys: seq<string>)
    requires |xs| >= 1 && |ys| >= 1 && AllOrdinary(xs) && AllOrdinary(ys)
    ensures Join([JoinWith(xs, '/'), JoinWith(ys, '/')]) == JoinWith(xs + ys, '/')
    ensures JoinWith(xs + ys, '/') == JoinWith(xs, '/') + "/" + JoinWith(ys, '/')
  {
    var x, y := JoinWith(xs, '/'), JoinWith(ys, '/');
    assert forall i :: 0 <= i < |xs| ==> xs[i] != "";
    assert forall i :: 0 <= i < |ys| ==> ys[i] != "";
    JoinWithEnds(xs, '/');
    JoinWithEnds(ys, '/');
    JoinPairParts(x, y);
    JoinWithAppend(xs, ys, '/');
    var zs := xs + ys;
    assert AllOrdinary(zs) by {
      forall i | 0 <= i < |zs| ensures Ordinary(zs[i]) && '/' !in zs[i] {
        if i >= |xs| { assert zs[i] == ys[i - |xs|]; }
      }
    }
    JoinOrdinary(zs);
    NonEmptyPartsOrdinary(zs);
  }
}
