/** The hack pipeline: deriving the serving path of a hack from its URL, patching the
    exported scripts with ordered find/replace rules, deploying the rebuilt SWF into
    the serving directory, undeploying it, and the sync pass that reconciles the
    serving directory with the configuration. */
module Hacks {
  import opened Text
  import opened PosixPath
  import opened WhatwgUrl
  import opened Disk
  import opened FFDec
  import opened Config

  /** One find/replace rule of a hack. */
  datatype Rule = Rule(find: string, replace: string)

  /** An entry of the hack catalogue. `scriptPath` and `scriptPaths` may be absent. */
  datatype Hack = Hack(
    id: string,
    title: string,
    url: string,
    scriptPath: Option<string>,
    scriptPaths: Option<seq<string>>,
    replacements: seq<Rule>)

  /** `hack.scriptPaths || [hack.scriptPath]`: an array, even an empty one, is truthy, so
      only an absent `scriptPaths` falls back to the single `scriptPath`, which may
      itself be absent. */
  function ScriptPathList(hack: Hack): (r: seq<Option<string>>)
    ensures hack.scriptPaths.None? ==> r == [hack.scriptPath]
    ensures hack.scriptPaths.Some? ==>
              |r| == |hack.scriptPaths.value| && forall i :: 0 <= i < |r| ==> r[i] == Some(hack.scriptPaths.value[i])
  {
    match hack.scriptPaths
    case Some(ps) => seq(|ps|, i requires 0 <= i < |ps| => Some(ps[i]))
    case None => [hack.scriptPath]
  }

  // ---------------------------------------------------------------------------------
  // Patching one script

  /** One pass of the inner loop: when `find` occurs, its first occurrence is replaced
      and the script counts as modified. */
  function ApplyRule(text: string, rule: Rule): (r: (string, bool))
    ensures r.1 <==> Includes(text, rule.find)
    ensures !r.1 ==> r.0 == text
    ensures r.1 && '$' !in rule.replace ==>
              var i := IndexOf(text, rule.find).value;
              r.0 == text[..i] + rule.replace + text[i + |rule.find|..]
  {
    if Includes(text, rule.find) then (ReplaceFirst(text, rule.find, rule.replace), true) else (text, false)
  }

  /** The inner loop over `rules`: the final text and whether any rule matched. A
      script no rule matched keeps its text. */
  function PatchText(text: string, rules: seq<Rule>): (r: (string, bool))
    ensures !r.1 ==> r.0 == text
    decreases |rules|
  {
    if rules == [] then (text, false)
    else
      var prev := PatchText(text, rules[..|rules| - 1]);
      var step := ApplyRule(prev.0, rules[|rules| - 1]);
      (step.0, prev.1 || step.1)
  }

  /** The text rule `i` is tested against: the text as the earlier rules left it. */
  function Intermediate(text: string, rules: seq<Rule>, i: nat): string
    requires i <= |rules|
  {
    PatchText(text, rules[..i]).0
  }

  /** Each rule acts on the text the earlier rules left. */
  lemma PatchStep(text: string, rules: seq<Rule>, i: nat)
    requires i < |rules|
    ensures Intermediate(text, rules, i + 1) == ApplyRule(Intermediate(text, rules, i), rules[i]).0
    ensures PatchText(text, rules[..i + 1]).1 == (PatchText(text, rules[..i]).1 || Includes(Intermediate(text, rules, i), rules[i].find))
  {
    assert rules[..i + 1][..i] == rules[..i];
  }

  /** Some rule's `find` occurs in the text the earlier rules left. */
  predicate SomeRuleMatches(text: string, rules: seq<Rule>)
  {
    exists i :: 0 <= i < |rules| && Includes(Intermediate(text, rules, i), rules[i].find)
  }

  /** The rules after the first `n` do not change what the first `n` see. */
  lemma IntermediatePrefix(text: string, rules: seq<Rule>, n: nat, i: nat)
    requires i <= n <= |rules|
    ensures Intermediate(text, rules[..n], i) == Intermediate(text, rules, i)
  {
    assert rules[..n][..i] == rules[..i];
  }

  /** A script is modified exactly when some rule's `find` occurs in the text the earlier
      rules left. */
  lemma {:induction false} PatchModifiedIff(text: string, rules: seq<Rule>)
    ensures PatchText(text, rules).1 <==> SomeRuleMatches(text, rules)
    decreases |rules|
  {
    if rules != [] {
      var n := |rules| - 1;
      var front := rules[..n];
      PatchModifiedIff(text, front);
      PatchStep(text, rules, n);
      assert rules[..n + 1] == rules;
      var last := Includes(Intermediate(text, rules, n), rules[n].find);
      assert PatchText(text, rules).1 == (PatchText(text, front).1 || last);
      if PatchText(text, front).1 {
        var i :| 0 <= i < n && Includes(Intermediate(text, front, i), front[i].find);
        IntermediatePrefix(text, rules, n, i);
        assert Includes(Intermediate(text, rules, i), rules[i].find);
      } else if !last {
        forall i | 0 <= i < |rules| ensures !Includes(Intermediate(text, rules, i), rules[i].find) {
          if i < n {
            IntermediatePrefix(text, rules, n, i);
            assert front[i] == rules[i];
          }
        }
      }
    }
  }

  // ---------------------------------------------------------------------------------
  // Patching the exported files

  const UndefinedPathMessage := "The \"path\" argument must be of type string. Received undefined"
  const IsDirectoryCode := "EISDIR"

  /** `readFileSync` succeeds on `p`. */
  predicate Readable(files: map<string, string>, p: string)
  {
    p in files && !EndsWithSlash(p)
  }

  /** Where the outer loop stands: the files, `anyModified`, and the error that ended
      the loop, if one did. */
  datatype PatchState = PatchState(files: map<string, string>, any: bool, failure: Option<string>)

  /** One pass of the outer loop. An absent script path makes `path.join` throw; a path
      that does not exist is skipped; one that exists but is not a readable file makes
      `readFileSync` throw; a matching file is rewritten. */
  function PatchOne(st: PatchState, dirs: set<string>, target: Option<string>, rules: seq<Rule>): (r: PatchState)
    ensures r.files.Keys == st.files.Keys
    ensures st.failure.Some? ==> r == st
    ensures r.failure.Some? <==>
              st.failure.Some? || target.None? || (ExistsIn(st.files, dirs, target.value) && !Readable(st.files, target.value))
    ensures r.failure.None? ==>
              (r.any <==> st.any || (Readable(st.files, target.value) && PatchText(st.files[target.value], rules).1))
  {
    if st.failure.Some? then st
    else
      match target
      case None => PatchState(st.files, st.any, Some(UndefinedPathMessage))
      case Some(t) =>
        if !ExistsIn(st.files, dirs, t) then st
        else if !Readable(st.files, t) then PatchState(st.files, st.any, Some(IsDirectoryCode))
        else
          var (content, modified) := PatchText(st.files[t], rules);
          if modified then PatchState(st.files[t := content], true, None) else st
  }

  /** The outer loop over the script files. */
  function PatchFiles(files: map<string, string>, dirs: set<string>, targets: seq<Option<string>>, rules: seq<Rule>): (st: PatchState)
    ensures st.files.Keys == files.Keys
    decreases |targets|
  {
    if targets == [] then PatchState(files, false, None)
    else PatchOne(PatchFiles(files, dirs, targets[..|targets| - 1], rules), dirs, targets[|targets| - 1], rules)
  }

  /** Once the loop has thrown, the rest of the targets are not looked at. */
  lemma {:induction false} PatchFailureStays(files: map<string, string>, dirs: set<string>, targets: seq<Option<string>>, rules: seq<Rule>, i: nat)
    requires i <= |targets|
    requires PatchFiles(files, dirs, targets[..i], rules).failure.Some?
    ensures PatchFiles(files, dirs, targets, rules) == PatchFiles(files, dirs, targets[..i], rules)
    decreases |targets| - i
  {
    if i < |targets| {
      assert targets[..i + 1][..i] == targets[..i];
      PatchFailureStays(files, dirs, targets, rules, i + 1);
    } else {
      assert targets[..i] == targets;
    }
  }

  /** When no rule matched anywhere, every file keeps its content. */
  lemma {:induction false} PatchNoMatchKeepsFiles(files: map<string, string>, dirs: set<string>, targets: seq<Option<string>>, rules: seq<Rule>)
    ensures !PatchFiles(files, dirs, targets, rules).any ==> PatchFiles(files, dirs, targets, rules).files == files
    decreases |targets|
  {
    if targets != [] {
      PatchNoMatchKeepsFiles(files, dirs, targets[..|targets| - 1], rules);
    }
  }

  /** A file that is not one of the targets keeps its content. */
  lemma {:induction false} PatchLeavesOthers(files: map<string, string>, dirs: set<string>, targets: seq<Option<string>>, rules: seq<Rule>, p: string)
    requires p in files && forall i :: 0 <= i < |targets| ==> targets[i] != Some(p)
    ensures PatchFiles(files, dirs, targets, rules).files[p] == files[p]
    decreases |targets|
  {
    if targets != [] {
      PatchLeavesOthers(files, dirs, targets[..|targets| - 1], rules, p);
    }
  }

  /** A path that does not exist is skipped and contributes nothing. */
  lemma MissingContributesNothing(files: map<string, string>, dirs: set<string>, targets: seq<Option<string>>, rules: seq<Rule>, t: string)
    requires !ExistsIn(files, dirs, t)
    ensures PatchFiles(files, dirs, targets + [Some(t)], rules) == PatchFiles(files, dirs, targets, rules)
  {
    assert (targets + [Some(t)])[..|targets|] == targets;
  }

  /** Targets that all lie in `dir` change nothing outside it. */
  lemma PatchOutside(files: map<string, string>, dirs: set<string>, targets: seq<Option<string>>, rules: seq<Rule>, dir: string)
    requires forall i :: 0 <= i < |targets| && targets[i].Some? ==> Within(targets[i].value, dir)
    ensures FilesOutside(PatchFiles(files, dirs, targets, rules).files, dir) == FilesOutside(files, dir)
  {
    var after := PatchFiles(files, dirs, targets, rules).files;
    forall p | p in files && !Within(p, dir) ensures after[p] == files[p] {
      PatchLeavesOthers(files, dirs, targets, rules, p);
    }
  }

  /** With distinct targets the loop ends without an error exactly when every target is
      given and every existing one is a readable file; then each target holds its own
      patched text, and `anyModified` says whether some existing target matched. */
  lemma PatchTargets(files: map<string, string>, dirs: set<string>, targets: seq<Option<string>>, rules: seq<Rule>)
    requires forall i, j :: 0 <= i < j < |targets| ==> targets[i] != targets[j]
    ensures var st := PatchFiles(files, dirs, targets, rules);
            && (st.failure.None? <==>
                  forall i :: 0 <= i < |targets| ==>
                    targets[i].Some? && (ExistsIn(files, dirs, targets[i].value) ==> Readable(files, targets[i].value)))
            && (st.failure.None? ==>
                  && (forall i :: 0 <= i < |targets| && Readable(files, targets[i].value) ==>
                        st.files[targets[i].value] == PatchText(files[targets[i].value], rules).0)
                  && (st.any <==> exists i :: 0 <= i < |targets| && Readable(files, targets[i].value)
                                   && PatchText(files[targets[i].value], rules).1))
  {
    PatchFailureIff(files, dirs, targets, rules);
    PatchContents(files, dirs, targets, rules);
    PatchAny(files, dirs, targets, rules);
  }

  /** The loop throws exactly when a target is absent or an existing target is not a
      readable file. */
  lemma {:induction false} PatchFailureIff(files: map<string, string>, dirs: set<string>, targets: seq<Option<string>>, rules: seq<Rule>)
    ensures PatchFiles(files, dirs, targets, rules).failure.None? <==>
              forall i :: 0 <= i < |targets| ==>
                targets[i].Some? && (ExistsIn(files, dirs, targets[i].value) ==> Readable(files, targets[i].value))
    decreases |targets|
  {
    if targets != [] {
      var n := |targets| - 1;
      var front := targets[..n];
      PatchFailureIff(files, dirs, front, rules);
      assert forall i :: 0 <= i < n ==> front[i] == targets[i];
    }
  }

  /** Without an error, each readable target holds its own patched text. */
  lemma {:induction false} PatchContents(files: map<string, string>, dirs: set<string>, targets: seq<Option<string>>, rules: seq<Rule>)
    requires forall i, j :: 0 <= i < j < |targets| ==> targets[i] != targets[j]
    ensures var st := PatchFiles(files, dirs, targets, rules);
            st.failure.None? ==>
              forall i :: 0 <= i < |targets| && targets[i].Some? && Readable(files, targets[i].value) ==>
                st.files[targets[i].value] == PatchText(files[targets[i].value], rules).0
    decreases |targets|
  {
    if targets != [] {
      var n := |targets| - 1;
      var front := targets[..n];
      PatchContents(files, dirs, front, rules);
      var prev := PatchFiles(files, dirs, front, rules);
      assert forall i :: 0 <= i < n ==> front[i] == targets[i];
      if prev.failure.None? && targets[n].Some? {
        var t := targets[n].value;
        assert forall i :: 0 <= i < n ==> front[i] != Some(t);
        if Readable(files, t) {
          PatchLeavesOthers(files, dirs, front, rules, t);
        }
      }
    }
  }

  /** Without an error, `anyModified` says whether some readable target matched, even
      when a path is listed more than once: a later visit of a file sees its patched
      text only when its first visit already matched. */
  lemma {:induction false} PatchAny(files: map<string, string>, dirs: set<string>, targets: seq<Option<string>>, rules: seq<Rule>)
    ensures var st := PatchFiles(files, dirs, targets, rules);
            st.failure.None? ==>
              (st.any <==> exists i :: 0 <= i < |targets| && targets[i].Some? && Readable(files, targets[i].value)
                             && PatchText(files[targets[i].value], rules).1)
    decreases |targets|
  {
    if targets != [] {
      var n := |targets| - 1;
      var front := targets[..n];
      PatchAny(files, dirs, front, rules);
      var prev := PatchFiles(files, dirs, front, rules);
      assert forall i :: 0 <= i < n ==> front[i] == targets[i];
      if prev.failure.None? && targets[n].Some? {
        var t := targets[n].value;
        if Readable(files, t) {
          PatchChangedMatched(files, dirs, front, rules, t);
        }
      }
    }
  }

  /** A file whose text the loop changed is a target whose original text matched. */
  lemma {:induction false} PatchChangedMatched(files: map<string, string>, dirs: set<string>, targets: seq<Option<string>>, rules: seq<Rule>, p: string)
    requires p in files
    ensures PatchFiles(files, dirs, targets, rules).files[p] == files[p]
            || exists i :: 0 <= i < |targets| && targets[i] == Some(p) && PatchText(files[p], rules).1
    decreases |targets|
  {
    if targets != [] {
      var n := |targets| - 1;
      var front := targets[..n];
      PatchChangedMatched(files, dirs, front, rules, p);
      assert forall i :: 0 <= i < n ==> front[i] == targets[i];
    }
  }

  /** The replacement loops of `deployHack`, over the files of the file system. */
  method ApplyReplacements(fs: FileSystem, targets: seq<Option<string>>, rules: seq<Rule>)
    returns (any: bool, failure: Option<string>)
    modifies fs
    ensures PatchState(fs.files, any, failure) == PatchFiles(old(fs.files), old(fs.dirs), targets, rules)
    ensures fs.dirs == old(fs.dirs)
  {
    any, failure := false, None;
    var i := 0;
    while i < |targets|
      invariant 0 <= i <= |targets|
      invariant fs.dirs == old(fs.dirs)
      invariant PatchState(fs.files, any, None) == PatchFiles(old(fs.files), old(fs.dirs), targets[..i], rules)
    {
      assert targets[..i + 1][..i] == targets[..i];
      if targets[i].None? {
        failure := Some(UndefinedPathMessage);
        PatchFailureStays(old(fs.files), old(fs.dirs), targets, rules, i + 1);
        return;
      }
      var t := targets[i].value;
      if fs.Exists(t) {
        if !(t in fs.files && !EndsWithSlash(t)) {
          failure := Some(IsDirectoryCode);
          PatchFailureStays(old(fs.files), old(fs.dirs), targets, rules, i + 1);
          return;
        }
        var original := fs.files[t];
        var content, modified := original, false;
        ghost var anyBefore := any;
        var j := 0;
        while j < |rules|
          invariant 0 <= j <= |rules|
          invariant (content, modified) == PatchText(original, rules[..j])
          invariant any == (anyBefore || modified)
        {
          assert rules[..j + 1][..j] == rules[..j];
          var rule := rules[j];
          if Includes(content, rule.find) {
            content := ReplaceFirst(content, rule.find, rule.replace);
            modified := true;
            any := true;
          }
          j := j + 1;
        }
        assert rules[..j] == rules;
        if modified {
          fs.Overwrite(t, content);
        }
      }
      i := i + 1;
    }
    assert targets[..i] == targets;
  }

  // ---------------------------------------------------------------------------------
  // The paths of a deployment

  /** `crypto.randomUUID()`: a single-segment name that is neither the serving directory
      nor the FFDec directory. */
  predicate FreshName(tmp: string)
  {
    Ordinary(tmp) && '/' !in tmp && tmp != "server" && tmp != FFDecDir
  }

  /** A script path that stays below the scripts directory: its segments are ordinary. */
  predicate PlainScriptPath(p: string)
  {
    AllOrdinary(Split(p, '/'))
  }

  /** A hack whose URL names a file and whose given script paths are plain. */
  predicate WellFormed(hack: Hack)
  {
    FileUrl(hack.url)
    && var paths := ScriptPathList(hack);
       forall i :: 0 <= i < |paths| && paths[i].Some? ==> PlainScriptPath(paths[i].value)
  }

  /** The directories `mkdirSync(serverFilePath.slice(0, -swfFileName.length), {recursive: true})`
      brings into existence when it succeeds. */
  function MadeDirs(url: string): set<string>
    requires InScope(url)
  {
    Ancestors(StripSlash(MkdirTarget(url)))
  }

  /** `path.join(scriptsDir, scriptPath)` for every script path, keeping an absent one
      absent. */
  function Targets(scriptsDir: string, paths: seq<Option<string>>): (r: seq<Option<string>>)
    ensures |r| == |paths|
    ensures forall i :: 0 <= i < |r| ==> (r[i].Some? <==> paths[i].Some?)
    ensures forall i :: 0 <= i < |r| && paths[i].Some? ==> r[i].value == Join([scriptsDir, paths[i].value])
  {
    seq(|paths|, i requires 0 <= i < |paths| => match paths[i] case None => None case Some(p) => Some(Join([scriptsDir, p])))
  }

  /** A file of the work directory: `path.join(tmpDir, name)` for a plain name. */
  lemma WorkPath(tmp: string, name: string)
    requires Ordinary(tmp) && '/' !in tmp && Ordinary(name) && '/' !in name
    ensures Join([tmp, name]) == tmp + "/" + name
    ensures Parent(tmp + "/" + name) == tmp && Within(tmp + "/" + name, tmp)
    ensures tmp + "/" + name != tmp && !EndsWithSlash(tmp + "/" + name)
  {
    JoinOrdinary([tmp, name]);
    assert JoinWith([tmp, name], '/') == tmp + "/" + name by {
      JoinWithCons(tmp, [name], '/');
    }
    ParentOfChild(tmp, name);
    WithinSlash(tmp, name);
    var p := tmp + "/" + name;
    assert p[|p| - 1] == name[|name| - 1];
    assert name[|name| - 1] in name;
  }

  /** Every given script path of a well-formed hack lies below the work directory. */
  lemma TargetsWithin(tmp: string, hack: Hack)
    requires FreshName(tmp) && WellFormed(hack)
    ensures var ts := Targets(tmp + "/scripts_export", ScriptPathList(hack));
            forall i :: 0 <= i < |ts| && ts[i].Some? ==> Within(ts[i].value, tmp)
  {
    var paths := ScriptPathList(hack);
    var ts := Targets(tmp + "/scripts_export", paths);
    forall i | 0 <= i < |ts| && ts[i].Some? ensures Within(ts[i].value, tmp) {
      ScriptTargetWithin(tmp, paths[i].value);
    }
  }

  lemma ScriptTargetWithin(tmp: string, p: string)
    requires FreshName(tmp) && PlainScriptPath(p)
    ensures Within(Join([tmp + "/scripts_export", p]), tmp)
  {
    var xs, ys := [tmp, "scripts_export"], Split(p, '/');
    JoinSplit(p, '/');
    assert [tmp] + ["scripts_export"] == xs;
    JoinWithCons(tmp, ["scripts_export"], '/');
    assert JoinWith(xs, '/') == tmp + "/scripts_export";
    JoinTwoOrdinary(xs, ys);
    var joined := Join([tmp + "/scripts_export", p]);
    assert joined == tmp + "/scripts_export" + "/" + p;
    assert joined == tmp + "/" + ("scripts_export" + "/" + p);
    WithinSlash(tmp, "scripts_export/" + p);
  }

  /** The serving path of a file URL is the directory `deployHack` creates, a `/` and
      the file name; that directory is `server` or lies below it. */
  lemma ServingSplit(url: string)
    requires FileUrl(url)
    ensures var sp, m, name := ServingPath(url), StripSlash(MkdirTarget(url)), SwfName(url);
            && sp == m + "/" + name && name != "" && '/' !in name
            && StartsWith(m, "server") && (|m| == |"server"| || m[|"server"|] == '/')
  {
    FileUrlPaths(url);
    ServerSplit(ServedSegments(url), ServingPath(url), SwfName(url), MkdirTarget(url));
  }

  /** The serving path split at its last `/`, stated on the parts alone. */
  lemma ServerSplit(segs: seq<string>, sp: string, name: string, target: string)
    requires |segs| >= 1 && sp == JoinWith(["server"] + segs, '/')
    requires name == segs[|segs| - 1] && Ordinary(name) && target == SliceDropEnd(sp, |name|)
    ensures var m := StripSlash(target);
            && sp == m + "/" + name
            && StartsWith(m, "server") && (|m| == |"server"| || m[|"server"|] == '/')
  {
    var parts := ["server"] + segs;
    assert parts[|parts| - 1] == name;
    JoinLastSegment(parts, sp, name);
    var m := JoinWith(parts[..|parts| - 1], '/');
    assert StripSlash(m + "/") == m;
    ServerJoin(parts, name);
  }

  /** Joining `server` and further segments, the last of which is `name`. */
  lemma ServerJoin(parts: seq<string>, name: string)
    requires |parts| >= 2 && parts[0] == "server" && parts[|parts| - 1] == name
    ensures var m := JoinWith(parts[..|parts| - 1], '/');
            && JoinWith(parts, '/') == m + "/" + name
            && StartsWith(m, "server") && (|m| == |"server"| || m[|"server"|] == '/')
  {
    var init := parts[..|parts| - 1];
    assert parts == init + [name];
    JoinWithAppend(init, [name], '/');
    assert init == ["server"] + init[1..];
    if |init| > 1 {
      JoinWithCons("server", init[1..], '/');
    }
  }

  /** Where the serving path of a file URL lies: below `server`, so outside the work and
      FFDec directories; its parent is the directory `deployHack` creates, which with all
      its ancestors is shorter than the serving path and outside those directories too. */
  lemma ServingFacts(url: string, tmp: string)
    requires FileUrl(url) && '/' !in tmp && tmp != "server"
    ensures var sp, m := ServingPath(url), StripSlash(MkdirTarget(url));
            && Within(sp, "server") && !Within(sp, tmp) && !Within(sp, FFDecDir)
            && sp != "" && !EndsWithSlash(sp)
            && m != "" && Parent(sp) == m && m in MadeDirs(url)
            && forall a :: a in MadeDirs(url) ==> !Within(a, tmp) && !Within(a, FFDecDir) && |a| < |sp|
  {
    ServingSplit(url);
    ChildOfServer(StripSlash(MkdirTarget(url)), SwfName(url), ServingPath(url), tmp);
  }

  lemma ChildOfServer(m: string, name: string, sp: string, tmp: string)
    requires sp == m + "/" + name && name != "" && '/' !in name
    requires StartsWith(m, "server") && (|m| == |"server"| || m[|"server"|] == '/')
    requires '/' !in tmp && tmp != "server"
    ensures && Within(sp, "server") && !Within(sp, tmp) && !Within(sp, FFDecDir)
            && sp != "" && !EndsWithSlash(sp)
            && m != "" && Parent(sp) == m && m in Ancestors(m)
            && forall a :: a in Ancestors(m) ==> !Within(a, tmp) && !Within(a, FFDecDir) && |a| < |sp|
  {
    ParentOfChild(m, name);
    assert StartsWith(sp, "server/") by {
      assert sp[..|"server"|] == m[..|"server"|];
      if |m| == |"server"| {
        assert sp[|"server"|] == '/';
      } else {
        assert sp[|"server"|] == m[|"server"|];
      }
    }
    WithinDistinct(sp, "server", tmp);
    WithinDistinct(sp, "server", FFDecDir);
    AncestorsOutside(m, "server", tmp);
    AncestorsOutside(m, "server", FFDecDir);
    assert sp[|sp| - 1] == name[|name| - 1];
    assert name[|name| - 1] in name;
  }

  /** The rebuilt SWF's name in the work directory is not below the scripts directory. */
  lemma OutputBesideScripts(tmp: string, name: string)
    ensures !Within(tmp + "/" + ("modified_" + name), tmp + "/scripts_export")
  {
    var output, scripts := tmp + "/" + ("modified_" + name), tmp + "/scripts_export";
    assert output[|tmp| + 1] == 'm';
    assert scripts[|tmp| + 1] == 's';
  }

  // ---------------------------------------------------------------------------------
  // Deploying and undeploying

  /** A hack the frame of `deployHack` is stated for: it is well formed and nothing
      exists yet at or below its work directory. */
  predicate Deployable(hack: Hack, files: map<string, string>, dirs: set<string>, tmp: string)
  {
    WellFormed(hack) && NothingWithin(files, dirs, tmp)
  }

  /** How `deployHack` ended. */
  datatype DeployOutcome = AlreadyDeployed | Deployed | NoReplacementApplied | DeployThrew(message: string)

  /** `deployHack(hack)`, with `tmp` the name `crypto.randomUUID()` returns. */
  method Deploy(fs: FileSystem, hack: Hack, tmp: string, tools: Tools) returns (out: DeployOutcome)
    requires InScope(hack.url) && FreshName(tmp)
    modifies fs
    ensures out == AlreadyDeployed <==> old(fs.Exists(ServingPath(hack.url)))
    ensures out == AlreadyDeployed ==> fs.files == old(fs.files) && fs.dirs == old(fs.dirs)
    ensures Deployable(hack, old(fs.files), old(fs.dirs), tmp) && out == NoReplacementApplied ==>
              && fs.files == old(fs.files)
              && fs.dirs == old(fs.dirs) + MadeDirs(hack.url)
              && Parent(ServingPath(hack.url)) in MadeDirs(hack.url)
    ensures Deployable(hack, old(fs.files), old(fs.dirs), tmp) && out == Deployed ==>
              && DeployedSwf(hack, old(fs.files), old(fs.dirs), tmp, tools).Some?
              && fs.files == old(fs.files)[ServingPath(hack.url) := DeployedSwf(hack, old(fs.files), old(fs.dirs), tmp, tools).value]
              && fs.dirs == old(fs.dirs) + MadeDirs(hack.url)
    ensures Deployable(hack, old(fs.files), old(fs.dirs), tmp) && out.DeployThrew? ==>
              && FilesOutside(fs.files, tmp) == old(fs.files)
              && DirsOutside(fs.dirs, tmp) <= old(fs.dirs) + MadeDirs(hack.url)
              && ServingPath(hack.url) !in fs.files
  {
    var sp := ServingPath(hack.url);
    if fs.Exists(sp) {
      return AlreadyDeployed;
    }
    var name := SwfName(hack.url);
    assert Within(tmp, tmp);
    var made := Prepare(fs, tmp, SliceDropEnd(sp, |name|));
    ghost var files1, dirs1 := fs.files, fs.dirs;
    if made.Threw? {
      out := DeployThrew(made.error);
    } else {
      var swf := Join([tmp, name]);
      var scriptsDir := Join([tmp, "scripts_export"]);
      var targets := Targets(scriptsDir, ScriptPathList(hack));
      var output := Join([tmp, "modified_" + name]);
      if WellFormed(hack) {
        DeployGeometry(hack, tmp);
      }
      out := Stage(fs, hack.url, swf, scriptsDir, targets, hack.replacements, output, sp, tmp, tools);
    }
    if Deployable(hack, old(fs.files), old(fs.dirs), tmp) {
      DeployGeometry(hack, tmp);
      DeployFrames(old(fs.files), old(fs.dirs), files1, dirs1, fs.files, fs.dirs, tmp, sp, MadeDirs(hack.url), made, out);
    }
  }

  /** The SWF `deployHack(hack)` installs, with `tmp` as its work directory, starting
      from `files` and `dirs`. */
  function DeployedSwf(hack: Hack, files: map<string, string>, dirs: set<string>, tmp: string, tools: Tools): Option<string>
    requires InScope(hack.url)
  {
    var name := SwfName(hack.url);
    var scriptsDir := Join([tmp, "scripts_export"]);
    RebuiltSwf(files, dirs + {tmp} + MadeDirs(hack.url), hack.url, Join([tmp, name]), scriptsDir,
               Targets(scriptsDir, ScriptPathList(hack)), hack.replacements, tools)
  }

  /** The first steps of `deployHack`: create the work directory, then the directory
      the serving file goes in. */
  method Prepare(fs: FileSystem, tmp: string, dir: string) returns (made: Completion)
    modifies fs
    ensures fs.files == old(fs.files)
    ensures made.Completed? ==> fs.dirs == old(fs.dirs) + {tmp} + Ancestors(StripSlash(dir))
    ensures made.Threw? ==> fs.dirs <= old(fs.dirs) + {tmp}
  {
    made := fs.MakeDir(tmp);
    if made.Completed? {
      made := fs.MkdirAll(dir);
    }
  }

  /** What `deployHack` leaves behind, seen from outside the work directory, given what
      each of its phases does. */
  lemma DeployFrames(files0: map<string, string>, dirs0: set<string>, files1: map<string, string>, dirs1: set<string>,
                     files: map<string, string>, dirs: set<string>, tmp: string, sp: string, made: set<string>,
                     prepared: Completion, out: DeployOutcome)
    requires NothingWithin(files0, dirs0, tmp) && !Within(sp, tmp) && !EndsWithSlash(sp) && !ExistsIn(files0, dirs0, sp)
    requires forall a :: a in made ==> !Within(a, tmp)
    requires files1 == files0
    requires prepared.Completed? ==> dirs1 == dirs0 + {tmp} + made
    requires prepared.Threw? ==> dirs1 <= dirs0 + {tmp} && out.DeployThrew? && files == files1 && dirs == dirs1
    requires prepared.Completed? ==>
               && out != AlreadyDeployed
               && (out == NoReplacementApplied ==> files == FilesOutside(files1, tmp) && dirs == DirsOutside(dirs1, tmp))
               && (out == Deployed ==>
                     sp in files && files == FilesOutside(files1, tmp)[sp := files[sp]] && dirs == DirsOutside(dirs1, tmp))
               && (out.DeployThrew? ==>
                     FilesOutside(files, tmp) == FilesOutside(files1, tmp) && DirsOutside(dirs, tmp) == DirsOutside(dirs1, tmp))
    ensures out != AlreadyDeployed
    ensures out == NoReplacementApplied ==> files == files0 && dirs == dirs0 + made
    ensures out == Deployed ==> sp in files && files == files0[sp := files[sp]] && dirs == dirs0 + made
    ensures out.DeployThrew? ==> FilesOutside(files, tmp) == files0 && DirsOutside(dirs, tmp) <= dirs0 + made && sp !in files
  {
    OutsideOfNothing(files0, dirs0, tmp);
    if prepared.Completed? {
      MadeDirsOutside(dirs0, tmp, made);
    } else {
      DirsOutsideAdd(dirs0, {tmp}, tmp);
      assert Within(tmp, tmp);
    }
  }

  /** The work paths of a well-formed hack lie in the work directory, and the serving
      path and the directories created for it lie outside it. */
  lemma DeployGeometry(hack: Hack, tmp: string)
    requires WellFormed(hack) && FreshName(tmp)
    ensures var sp, name := ServingPath(hack.url), SwfName(hack.url);
            && Placed(Join([tmp, name]), Join([tmp, "scripts_export"]),
                      Targets(Join([tmp, "scripts_export"]), ScriptPathList(hack)),
                      Join([tmp, "modified_" + name]), sp, tmp)
            && Parent(sp) in MadeDirs(hack.url) && !EndsWithSlash(sp)
            && forall a :: a in MadeDirs(hack.url) ==> !Within(a, tmp)
  {
    var name := SwfName(hack.url);
    NameFacts(hack.url);
    WorkPlaced(tmp, name);
    ServingFacts(hack.url, tmp);
    TargetsWithin(tmp, hack);
  }

  /** The file name of a file URL is an ordinary segment. */
  lemma NameFacts(url: string)
    requires FileUrl(url)
    ensures Ordinary(SwfName(url)) && '/' !in SwfName(url)
  {
    FileUrlPaths(url);
  }

  /** The downloaded SWF, the scripts directory and the rebuilt SWF are in the work
      directory. */
  lemma WorkPlaced(tmp: string, name: string)
    requires FreshName(tmp) && Ordinary(name) && '/' !in name
    ensures Within(Join([tmp, name]), tmp)
    ensures Join([tmp, "scripts_export"]) == tmp + "/scripts_export" && Within(tmp + "/scripts_export", tmp)
    ensures Within(Join([tmp, "modified_" + name]), tmp)
    ensures !Within(Join([tmp, "modified_" + name]), tmp + "/scripts_export")
  {
    WorkPath(tmp, name);
    ScriptsPlaced(tmp);
    OutputPlaced(tmp, name);
  }

  /** The scripts directory is `<tmp>/scripts_export`, in the work directory. */
  lemma ScriptsPlaced(tmp: string)
    requires FreshName(tmp)
    ensures Join([tmp, "scripts_export"]) == tmp + "/scripts_export" && Within(tmp + "/scripts_export", tmp)
  {
    ScriptsName();
    WorkPath(tmp, "scripts_export");
    ScriptsText(tmp, tmp + "/" + "scripts_export");
  }

  /** `scripts_export` is an ordinary segment. */
  lemma ScriptsName()
    ensures Ordinary("scripts_export") && '/' !in "scripts_export"
  {
  }

  /** The text of the scripts directory, over a plain string so that the join terms stay
      out of the step. */
  lemma ScriptsText(tmp: string, p: string)
    requires p == tmp + "/" + "scripts_export"
    ensures p == tmp + "/scripts_export"
  {
  }

  /** The rebuilt SWF is in the work directory and not below the scripts directory. */
  lemma OutputPlaced(tmp: string, name: string)
    requires FreshName(tmp) && '/' !in name
    ensures Within(Join([tmp, "modified_" + name]), tmp)
    ensures !Within(Join([tmp, "modified_" + name]), tmp + "/scripts_export")
  {
    OutputName(name);
    WorkPath(tmp, "modified_" + name);
    OutputBesideScripts(tmp, name);
  }

  /** `modified_<name>` is an ordinary segment. */
  lemma OutputName(name: string)
    requires '/' !in name
    ensures Ordinary("modified_" + name) && '/' !in "modified_" + name
  {
    assert ("modified_" + name)[0] == 'm';
  }

  /** Making the work directory and the serving directories, seen from outside the work
      directory, adds only the serving directories. */
  lemma MadeDirsOutside(dirs0: set<string>, tmp: string, made: set<string>)
    requires forall d :: d in dirs0 ==> !Within(d, tmp)
    requires forall a :: a in made ==> !Within(a, tmp)
    ensures DirsOutside(dirs0 + {tmp} + made, tmp) == dirs0 + made
  {
  }

  /** The paths `deployHack` writes, placed as a well-formed hack places them: the
      downloaded SWF, the scripts directory, the script files and the rebuilt SWF in the
      work directory, and the serving path outside it. */
  predicate Placed(swf: string, scriptsDir: string, targets: seq<Option<string>>, output: string, sp: string, tmp: string)
  {
    && Within(swf, tmp) && Within(scriptsDir, tmp) && Within(output, tmp) && !Within(sp, tmp)
    && forall i :: 0 <= i < |targets| && targets[i].Some? ==> Within(targets[i].value, tmp)
  }

  /** The SWF `deployHack` installs, when every step on the way succeeds: the download
      goes to `swf`, its scripts are exported below `scriptsDir`, the rules patch the
      targets, and the SWF is rebuilt from the scripts as patched. */
  function RebuiltSwf(files: map<string, string>, dirs: set<string>, url: string, swf: string, scriptsDir: string,
                      targets: seq<Option<string>>, rules: seq<Rule>, tools: Tools): Option<string>
  {
    match tools.fetch(url)
    case Failed(_) => None
    case Done(fetched) =>
      match tools.decompile(Some(fetched))
      case Failed(_) => None
      case Done(tree) =>
        var exported := files[swf := fetched] + Prefixed(scriptsDir, tree);
        var patched := PatchFiles(exported, dirs + {scriptsDir} + PrefixedDirs(scriptsDir, tree), targets, rules).files;
        match tools.recompile(if swf in patched then Some(patched[swf]) else None, Relative(patched, scriptsDir))
        case Failed(_) => None
        case Done(built) => Some(built)
  }

  /** `deployHack` from the download on: fetch the SWF into the work directory, export
      its scripts, patch them, and either give up, removing the work directory, or
      rebuild the SWF and install it. */
  method Stage(fs: FileSystem, url: string, swf: string, scriptsDir: string, targets: seq<Option<string>>, rules: seq<Rule>,
               output: string, sp: string, tmp: string, tools: Tools)
    returns (out: DeployOutcome)
    modifies fs
    ensures out != AlreadyDeployed
    ensures Placed(swf, scriptsDir, targets, output, sp, tmp) ==>
              && (out == NoReplacementApplied ==>
                    fs.files == FilesOutside(old(fs.files), tmp) && fs.dirs == DirsOutside(old(fs.dirs), tmp))
              && (out == Deployed ==>
                    && RebuiltSwf(old(fs.files), old(fs.dirs), url, swf, scriptsDir, targets, rules, tools).Some?
                    && fs.files == FilesOutside(old(fs.files), tmp)
                                     [sp := RebuiltSwf(old(fs.files), old(fs.dirs), url, swf, scriptsDir, targets, rules, tools).value]
                    && fs.dirs == DirsOutside(old(fs.dirs), tmp))
              && (out.DeployThrew? ==>
                    FilesOutside(fs.files, tmp) == FilesOutside(old(fs.files), tmp)
                    && DirsOutside(fs.dirs, tmp) == DirsOutside(old(fs.dirs), tmp))
  {
    ghost var placed := Placed(swf, scriptsDir, targets, output, sp, tmp);
    var downloaded := fs.Download(url, swf, tools.fetch);
    if downloaded.Threw? {
      return DeployThrew(downloaded.error);
    }
    if placed {
      OutsideUpdate(old(fs.files), swf, tools.fetch(url).value, tmp);
    }
    ghost var files1, dirs1, read1 := fs.files, fs.dirs, fs.Read(swf);
    var exported := ExportScripts(fs, swf, scriptsDir, tools);
    if exported.Threw? {
      return DeployThrew(exported.error);
    }
    if placed {
      ExportOutside(files1, dirs1, scriptsDir, tmp, tools.decompile(read1).value);
    }
    ghost var files2, dirs2 := fs.files, fs.dirs;
    var any, failure := ApplyReplacements(fs, targets, rules);
    if placed {
      PatchOutside(files2, dirs2, targets, rules, tmp);
    }
    if failure.Some? {
      return DeployThrew(failure.value);
    }
    if !any {
      fs.RemoveTree(tmp);
      return NoReplacementApplied;
    }
    ghost var files3, read3 := fs.files, fs.Read(swf);
    out := Finish(fs, swf, output, scriptsDir, sp, tmp, tools);
    if placed {
      var rebuilt := tools.recompile(read3, Relative(files3, scriptsDir));
      assert RebuiltSwf(old(fs.files), old(fs.dirs), url, swf, scriptsDir, targets, rules, tools)
          == if rebuilt.Done? then Some(rebuilt.value) else None;
      if rebuilt.Done? {
        OutsideUpdate(files3, output, rebuilt.value, tmp);
        OutsideUpdateOutside(files3[output := rebuilt.value], sp, rebuilt.value, tmp);
      }
    }
  }

  /** Exporting into a directory below `tmp` changes nothing outside `tmp`. */
  lemma ExportOutside(files: map<string, string>, dirs: set<string>, scriptsDir: string, tmp: string, tree: map<string, string>)
    requires Within(scriptsDir, tmp)
    ensures FilesOutside(files + Prefixed(scriptsDir, tree), tmp) == FilesOutside(files, tmp)
    ensures DirsOutside(dirs + {scriptsDir} + PrefixedDirs(scriptsDir, tree), tmp) == DirsOutside(dirs, tmp)
  {
    OutsidePlace(files, scriptsDir, tmp, tree);
    forall d | d in {scriptsDir} + PrefixedDirs(scriptsDir, tree) ensures Within(d, tmp) {
      if d != scriptsDir {
        WithinTrans(d, scriptsDir, tmp);
      }
    }
    DirsOutsideAdd(dirs, {scriptsDir} + PrefixedDirs(scriptsDir, tree), tmp);
  }

  /** The end of `deployHack` once a rule matched: rebuild the SWF into `output`, copy it
      to the serving path and remove the work directory. */
  method Finish(fs: FileSystem, swf: string, output: string, scriptsDir: string, sp: string, tmp: string, tools: Tools)
    returns (out: DeployOutcome)
    modifies fs
    ensures out == Deployed || out.DeployThrew?
    ensures var rebuilt := tools.recompile(old(fs.Read(swf)), Relative(old(fs.files), scriptsDir));
            && (out == Deployed ==>
                  && rebuilt.Done?
                  && fs.files == FilesOutside(old(fs.files)[output := rebuilt.value][sp := rebuilt.value], tmp)
                  && fs.dirs == DirsOutside(old(fs.dirs), tmp))
            && (out.DeployThrew? ==>
                  (fs.files == old(fs.files) || (rebuilt.Done? && fs.files == old(fs.files)[output := rebuilt.value]))
                  && fs.dirs == old(fs.dirs))
  {
    var imported := ImportScripts(fs, swf, output, scriptsDir, tools);
    if imported.Threw? {
      return DeployThrew(imported.error);
    }
    var copied := fs.CopyFile(output, sp);
    if copied.Threw? {
      return DeployThrew(copied.error);
    }
    fs.RemoveTree(tmp);
    return Deployed;
  }

  /** How `undeployHack` ended. */
  datatype UndeployOutcome = AlreadyAbsent | Undeployed | UndeployThrew(message: string)

  /** `undeployHack(hack)`: removes the serving file, and nothing else. */
  method Undeploy(fs: FileSystem, hack: Hack) returns (out: UndeployOutcome)
    requires InScope(hack.url)
    modifies fs
    ensures out == AlreadyAbsent <==> !old(fs.Exists(ServingPath(hack.url)))
    ensures out == Undeployed <==>
              old(fs.Exists(ServingPath(hack.url))) && Readable(old(fs.files), ServingPath(hack.url))
    ensures out == Undeployed ==> fs.files == old(fs.files) - {ServingPath(hack.url)} && fs.dirs == old(fs.dirs)
    ensures out != Undeployed ==> fs.files == old(fs.files) && fs.dirs == old(fs.dirs)
  {
    var sp := ServingPath(hack.url);
    if !fs.Exists(sp) {
      return AlreadyAbsent;
    }
    var removed := fs.Unlink(sp);
    if removed.Threw? {
      return UndeployThrew(removed.error);
    }
    return Undeployed;
  }

  // ---------------------------------------------------------------------------------
  // Synchronising the serving directory with the configuration

  /** What the pass did for one hack. */
  datatype StepOutcome = DeployStep(deployed: DeployOutcome) | UndeployStep(undeployed: UndeployOutcome)

  /** How `syncHacksOnLocalServer` ended: every hack was handled, or a step threw and
      the pass stopped there. */
  datatype SyncOutcome = SyncCompleted(steps: seq<StepOutcome>) | SyncThrew(message: string)

  /** The catalogue's URLs are all of the shape the model reads. */
  predicate AllInScope(catalogue: seq<(string, Hack)>)
  {
    forall i :: 0 <= i < |catalogue| ==> InScope(catalogue[i].1.url)
  }

  /** The keys of the catalogue, in iteration order. */
  function Keys(catalogue: seq<(string, Hack)>): (keys: seq<string>)
    ensures |keys| == |catalogue| && forall i :: 0 <= i < |catalogue| ==> keys[i] == catalogue[i].0
  {
    seq(|catalogue|, i requires 0 <= i < |catalogue| => catalogue[i].0)
  }

  /** The serving path of every hack of the catalogue. */
  function ServingPaths(catalogue: seq<(string, Hack)>): (sps: seq<string>)
    requires AllInScope(catalogue)
    ensures |sps| == |catalogue| && forall i :: 0 <= i < |catalogue| ==> sps[i] == ServingPath(catalogue[i].1.url)
  {
    seq(|catalogue|, i requires 0 <= i < |catalogue| => ServingPath(catalogue[i].1.url))
  }

  /** The directories `deployHack` creates for every hack of the catalogue. */
  function MadeDirSets(catalogue: seq<(string, Hack)>): (mades: seq<set<string>>)
    requires AllInScope(catalogue)
    ensures |mades| == |catalogue| && forall i :: 0 <= i < |catalogue| ==> mades[i] == MadeDirs(catalogue[i].1.url)
  {
    seq(|catalogue|, i requires 0 <= i < |catalogue| => MadeDirs(catalogue[i].1.url))
  }

  /** The serving directory agrees with the configuration: FFDec is installed, and a
      hack's serving file exists exactly when its key is enabled. */
  predicate Converged(files: map<string, string>, dirs: set<string>, catalogue: seq<(string, Hack)>,
                      config: map<string, JsonValue>)
    requires AllInScope(catalogue)
  {
    && ExistsIn(files, dirs, JarPath)
    && forall i :: 0 <= i < |catalogue| ==>
         (Truthy(config, catalogue[i].0) <==> ExistsIn(files, dirs, ServingPath(catalogue[i].1.url)))
  }

  /** What a pass over a converged directory reports: every step skipped. */
  function Skips(catalogue: seq<(string, Hack)>, config: map<string, JsonValue>): (steps: seq<StepOutcome>)
    ensures |steps| == |catalogue|
    ensures forall i :: 0 <= i < |catalogue| ==>
              steps[i] == if Truthy(config, catalogue[i].0) then DeployStep(AlreadyDeployed) else UndeployStep(AlreadyAbsent)
  {
    seq(|catalogue|, i requires 0 <= i < |catalogue| =>
      if Truthy(config, catalogue[i].0) then DeployStep(AlreadyDeployed) else UndeployStep(AlreadyAbsent))
  }

  /** No two hacks share a serving path, and no hack's serving path is a directory
      another hack's deployment creates. */
  predicate Independent(catalogue: seq<(string, Hack)>)
    requires AllInScope(catalogue)
  {
    forall i, j :: 0 <= i < |catalogue| && 0 <= j < |catalogue| && i != j ==>
      && ServingPath(catalogue[i].1.url) != ServingPath(catalogue[j].1.url)
      && ServingPath(catalogue[j].1.url) !in MadeDirs(catalogue[i].1.url)
  }

  /** The situation the convergence of a pass is stated for: well-formed, independent
      hacks, no serving path taken by a directory, and nothing yet at any work
      directory. */
  predicate SyncReady(files: map<string, string>, dirs: set<string>, catalogue: seq<(string, Hack)>, tmps: seq<string>)
    requires AllInScope(catalogue)
  {
    && |tmps| == |catalogue|
    && (forall i :: 0 <= i < |catalogue| ==> WellFormed(catalogue[i].1))
    && Independent(catalogue)
    && (forall i :: 0 <= i < |catalogue| ==> ServingPath(catalogue[i].1.url) !in dirs)
    && (forall i :: 0 <= i < |tmps| ==> NothingWithin(files, dirs, tmps[i]))
  }

  /** Where the paths of independent, well-formed hacks lie relative to each other, to
      the work directories and to the FFDec directory. */
  predicate Geometry(sps: seq<string>, mades: seq<set<string>>, tmps: seq<string>)
    requires |sps| == |mades| == |tmps|
  {
    && (forall i :: 0 <= i < |sps| ==> !Within(sps[i], FFDecDir) && !EndsWithSlash(sps[i]))
    && (forall i, a :: 0 <= i < |sps| && a in mades[i] ==> !Within(a, FFDecDir))
    && (forall i, j :: 0 <= i < |sps| && 0 <= j < |sps| ==> !Within(sps[i], tmps[j]) && sps[j] !in mades[i])
    && (forall i, j, a :: 0 <= i < |sps| && 0 <= j < |sps| && a in mades[i] ==> !Within(a, tmps[j]))
    && (forall i, j :: 0 <= i < |sps| && 0 <= j < |sps| && i != j ==> sps[i] != sps[j])
  }

  lemma GeometryHolds(catalogue: seq<(string, Hack)>, tmps: seq<string>)
    requires AllInScope(catalogue) && |tmps| == |catalogue|
    requires forall i :: 0 <= i < |catalogue| ==> WellFormed(catalogue[i].1)
    requires forall i :: 0 <= i < |tmps| ==> FreshName(tmps[i])
    requires Independent(catalogue)
    ensures Geometry(ServingPaths(catalogue), MadeDirSets(catalogue), tmps)
  {
    var sps, mades := ServingPaths(catalogue), MadeDirSets(catalogue);
    forall i | 0 <= i < |sps|
      ensures !Within(sps[i], FFDecDir) && !EndsWithSlash(sps[i]) && sps[i] !in mades[i]
      ensures forall a :: a in mades[i] ==> !Within(a, FFDecDir)
    {
      OneGeometry(catalogue[i].1.url, tmps[i], sps[i], mades[i]);
    }
    forall i, j | 0 <= i < |sps| && 0 <= j < |sps|
      ensures !Within(sps[i], tmps[j]) && (forall a :: a in mades[i] ==> !Within(a, tmps[j]))
    {
      OneGeometry(catalogue[i].1.url, tmps[j], sps[i], mades[i]);
    }
    forall i, j | 0 <= i < |sps| && 0 <= j < |sps| && i != j ensures sps[i] != sps[j] && sps[j] !in mades[i] {
      assert ServingPath(catalogue[i].1.url) != ServingPath(catalogue[j].1.url);
      assert ServingPath(catalogue[j].1.url) !in MadeDirs(catalogue[i].1.url);
    }
  }

  /** Where one well-formed hack's paths lie relative to a work directory. */
  lemma OneGeometry(url: string, tmp: string, sp: string, made: set<string>)
    requires FileUrl(url) && FreshName(tmp) && sp == ServingPath(url) && made == MadeDirs(url)
    ensures !Within(sp, FFDecDir) && !EndsWithSlash(sp) && !Within(sp, tmp) && sp !in made
    ensures forall a :: a in made ==> !Within(a, FFDecDir) && !Within(a, tmp)
  {
    ServingFacts(url, tmp);
  }

  /** What the pass keeps true as it goes: the work directories still to come are
      untouched, no serving path is a directory, FFDec is installed, and every hack
      handled so far, unless its replacements failed, agrees with the configuration. */
  predicate SyncInvariant(files: map<string, string>, dirs: set<string>, keys: seq<string>, config: map<string, JsonValue>,
                          sps: seq<string>, tmps: seq<string>, steps: seq<StepOutcome>)
    requires |steps| <= |keys| == |sps| == |tmps|
  {
    && (forall j :: |steps| <= j < |tmps| ==> NothingWithin(files, dirs, tmps[j]))
    && (forall j :: 0 <= j < |sps| ==> sps[j] !in dirs)
    && ExistsIn(files, dirs, JarPath)
    && (forall j :: 0 <= j < |steps| && steps[j] != DeployStep(NoReplacementApplied) ==>
          (Truthy(config, keys[j]) <==> ExistsIn(files, dirs, sps[j])))
  }

  /** One step of the pass keeps the invariant when it changes only the serving path of
      its hack and adds only that hack's directories, and leaves that hack agreeing with
      the configuration unless its replacements failed. */
  lemma {:induction false} StepKeeps(files: map<string, string>, dirs: set<string>, files': map<string, string>, dirs': set<string>,
                  keys: seq<string>, config: map<string, JsonValue>, sps: seq<string>, mades: seq<set<string>>,
                  tmps: seq<string>, steps: seq<StepOutcome>, step: StepOutcome)
    requires |steps| < |keys| == |sps| == |mades| == |tmps|
    requires Geometry(sps, mades, tmps)
    requires SyncInvariant(files, dirs, keys, config, sps, tmps, steps)
    requires forall p :: p != sps[|steps|] ==> (p in files' <==> p in files)
    requires dirs <= dirs' <= dirs + mades[|steps|]
    requires step != DeployStep(NoReplacementApplied) ==> (Truthy(config, keys[|steps|]) <==> ExistsIn(files', dirs', sps[|steps|]))
    ensures SyncInvariant(files', dirs', keys, config, sps, tmps, steps + [step])
  {
    var i := |steps|;
    var steps' := steps + [step];
    forall j | i + 1 <= j < |tmps| ensures NothingWithin(files', dirs', tmps[j]) {
      assert NothingWithin(files, dirs, tmps[j]);
    }
    JarInToolDir();
    assert JarPath != sps[i] && JarPath !in mades[i];
    forall j | 0 <= j < |steps'| && steps'[j] != DeployStep(NoReplacementApplied)
      ensures Truthy(config, keys[j]) <==> ExistsIn(files', dirs', sps[j])
    {
      if j < i {
        assert steps'[j] == steps[j];
        assert sps[j] != sps[i] && sps[j] !in mades[i];
      }
    }
  }

  /** Installing FFDec touches only the FFDec directory, so the pass starts from the
      invariant. */
  lemma SetupKeeps(files0: map<string, string>, dirs0: set<string>, files1: map<string, string>, dirs1: set<string>,
                   keys: seq<string>, config: map<string, JsonValue>, sps: seq<string>, mades: seq<set<string>>,
                   tmps: seq<string>)
    requires |keys| == |sps| == |mades| == |tmps|
    requires Geometry(sps, mades, tmps)
    requires forall j :: 0 <= j < |tmps| ==> FreshName(tmps[j]) && NothingWithin(files0, dirs0, tmps[j])
    requires forall j :: 0 <= j < |sps| ==> sps[j] !in dirs0
    requires FilesOutside(files1, FFDecDir) == FilesOutside(files0, FFDecDir)
    requires DirsOutside(dirs1, FFDecDir) == DirsOutside(dirs0, FFDecDir)
    requires ExistsIn(files1, dirs1, JarPath)
    ensures SyncInvariant(files1, dirs1, keys, config, sps, tmps, [])
  {
    forall j | 0 <= j < |tmps| ensures NothingWithin(files1, dirs1, tmps[j]) {
      forall p | p in files1 ensures !Within(p, tmps[j]) {
        WithinDistinct(p, FFDecDir, tmps[j]);
        if !Within(p, FFDecDir) {
          assert p in FilesOutside(files1, FFDecDir);
        }
      }
      forall d | d in dirs1 ensures !Within(d, tmps[j]) {
        WithinDistinct(d, FFDecDir, tmps[j]);
        if !Within(d, FFDecDir) {
          assert d in DirsOutside(dirs1, FFDecDir);
        }
      }
    }
    forall j | 0 <= j < |sps| ensures sps[j] !in dirs1 {
      assert sps[j] !in DirsOutside(dirs0, FFDecDir);
    }
  }

  /** `syncHacksOnLocalServer()`: install FFDec, then deploy every hack whose key the
      configuration enables and undeploy every other one, in catalogue order; the first
      step that throws ends the pass. `tmps[i]` is the name `crypto.randomUUID()` returns
      for the `i`-th hack. */
  method Sync(fs: FileSystem, catalogue: seq<(string, Hack)>, config: map<string, JsonValue>, tmps: seq<string>,
              tools: Tools) returns (out: SyncOutcome)
    requires AllInScope(catalogue) && |tmps| == |catalogue|
    requires forall i :: 0 <= i < |tmps| ==> FreshName(tmps[i])
    modifies fs
    ensures out.SyncCompleted? ==>
              && |out.steps| == |catalogue|
              && forall i :: 0 <= i < |catalogue| ==> (out.steps[i].DeployStep? <==> Truthy(config, catalogue[i].0))
    ensures old(Converged(fs.files, fs.dirs, catalogue, config)) ==>
              out == SyncCompleted(Skips(catalogue, config)) && fs.files == old(fs.files) && fs.dirs == old(fs.dirs)
    ensures old(SyncReady(fs.files, fs.dirs, catalogue, tmps)) && out.SyncCompleted? ==>
              && ExistsIn(fs.files, fs.dirs, JarPath)
              && forall i :: 0 <= i < |catalogue| && out.steps[i] != DeployStep(NoReplacementApplied) ==>
                   (Truthy(config, catalogue[i].0) <==> ExistsIn(fs.files, fs.dirs, ServingPath(catalogue[i].1.url)))
  {
    ghost var conv := Converged(fs.files, fs.dirs, catalogue, config);
    ghost var ready := SyncReady(fs.files, fs.dirs, catalogue, tmps);
    ghost var keys, sps, mades := Keys(catalogue), ServingPaths(catalogue), MadeDirSets(catalogue);
    ghost var skips := Skips(catalogue, config);
    EntriesHold(catalogue, keys, sps, mades, ready, config, skips, fs.files, fs.dirs, tmps);
    var setup := SetupFFDec(fs, tools);
    if setup.SetupThrew? {
      return SyncThrew(setup.message);
    }
    if ready {
      SetupKeeps(old(fs.files), old(fs.dirs), fs.files, fs.dirs, keys, config, sps, mades, tmps);
    }
    out := SyncLoop(fs, catalogue, config, tmps, tools, keys, sps, mades, skips, conv, ready);
    if ready && out.SyncCompleted? {
      SyncEnd(fs.files, fs.dirs, catalogue, config, keys, sps, tmps, out.steps);
    }
  }

  /** A pass that ended with the jar in place and the serving file present exactly for
      the enabled keys, no deploy having found nothing to replace, leaves the directory
      converged. */
  lemma PassConverges(files: map<string, string>, dirs: set<string>, catalogue: seq<(string, Hack)>,
                      config: map<string, JsonValue>, steps: seq<StepOutcome>)
    requires AllInScope(catalogue) && |steps| == |catalogue|
    requires forall i :: 0 <= i < |steps| ==> steps[i] != DeployStep(NoReplacementApplied)
    requires ExistsIn(files, dirs, JarPath)
    requires forall i :: 0 <= i < |catalogue| && steps[i] != DeployStep(NoReplacementApplied) ==>
               (Truthy(config, catalogue[i].0) <==> ExistsIn(files, dirs, ServingPath(catalogue[i].1.url)))
    ensures Converged(files, dirs, catalogue, config)
  {
    forall i | 0 <= i < |catalogue|
      ensures Truthy(config, catalogue[i].0) <==> ExistsIn(files, dirs, ServingPath(catalogue[i].1.url))
    {
      assert steps[i] != DeployStep(NoReplacementApplied);
    }
  }

  /** Two passes in a row: after a first pass that completed without a deploy finding
      nothing to replace, the second pass skips every hack and changes nothing. */
  method SyncTwice(fs: FileSystem, catalogue: seq<(string, Hack)>, config: map<string, JsonValue>,
                   tmps: seq<string>, again: seq<string>, tools: Tools)
    returns (first: SyncOutcome, second: SyncOutcome, ghost between: (map<string, string>, set<string>))
    requires AllInScope(catalogue) && |tmps| == |catalogue| && |again| == |catalogue|
    requires forall i :: 0 <= i < |tmps| ==> FreshName(tmps[i])
    requires forall i :: 0 <= i < |again| ==> FreshName(again[i])
    requires SyncReady(fs.files, fs.dirs, catalogue, tmps)
    modifies fs
    ensures first.SyncCompleted? && (forall i :: 0 <= i < |first.steps| ==> first.steps[i] != DeployStep(NoReplacementApplied)) ==>
              && Converged(between.0, between.1, catalogue, config)
              && second == SyncCompleted(Skips(catalogue, config))
              && fs.files == between.0 && fs.dirs == between.1
  {
    first := Sync(fs, catalogue, config, tmps, tools);
    between := (fs.files, fs.dirs);
    if first.SyncCompleted? && forall i :: 0 <= i < |first.steps| ==> first.steps[i] != DeployStep(NoReplacementApplied) {
      PassConverges(fs.files, fs.dirs, catalogue, config, first.steps);
    }
    second := Sync(fs, catalogue, config, again, tools);
  }

  /** What the start of the pass supplies to its loop. */
  lemma EntriesHold(catalogue: seq<(string, Hack)>, keys: seq<string>, sps: seq<string>, mades: seq<set<string>>,
                    ready: bool, config: map<string, JsonValue>, skips: seq<StepOutcome>,
                    files: map<string, string>, dirs: set<string>, tmps: seq<string>)
    requires AllInScope(catalogue) && |tmps| == |catalogue|
    requires forall i :: 0 <= i < |tmps| ==> FreshName(tmps[i])
    requires keys == Keys(catalogue) && sps == ServingPaths(catalogue) && mades == MadeDirSets(catalogue)
    requires skips == Skips(catalogue, config)
    requires ready == SyncReady(files, dirs, catalogue, tmps)
    ensures forall i :: 0 <= i < |catalogue| ==> Entry(catalogue, keys, sps, mades, ready, i)
    ensures forall i :: 0 <= i < |skips| ==> skips[i] == SkipOf(config, keys[i])
    ensures Converged(files, dirs, catalogue, config) ==>
              ExistsIn(files, dirs, JarPath) && forall i :: 0 <= i < |sps| ==> (Truthy(config, keys[i]) <==> ExistsIn(files, dirs, sps[i]))
    ensures ready ==>
              && Geometry(sps, mades, tmps)
              && (forall j :: 0 <= j < |tmps| ==> NothingWithin(files, dirs, tmps[j]))
              && (forall j :: 0 <= j < |sps| ==> sps[j] !in dirs)
  {
    if ready {
      GeometryHolds(catalogue, tmps);
    }
  }

  /** The invariant at the end of the pass is its convergence promise. */
  lemma SyncEnd(files: map<string, string>, dirs: set<string>, catalogue: seq<(string, Hack)>, config: map<string, JsonValue>,
                keys: seq<string>, sps: seq<string>, tmps: seq<string>, steps: seq<StepOutcome>)
    requires AllInScope(catalogue) && |tmps| == |catalogue| == |steps|
    requires keys == Keys(catalogue) && sps == ServingPaths(catalogue)
    requires SyncInvariant(files, dirs, keys, config, sps, tmps, steps)
    ensures ExistsIn(files, dirs, JarPath)
    ensures forall i :: 0 <= i < |catalogue| && steps[i] != DeployStep(NoReplacementApplied) ==>
              (Truthy(config, catalogue[i].0) <==> ExistsIn(files, dirs, ServingPath(catalogue[i].1.url)))
  {
  }

  /** The step a pass over a converged directory reports for an enabled or a disabled
      key. */
  function SkipOf(config: map<string, JsonValue>, key: string): StepOutcome
  {
    if Truthy(config, key) then DeployStep(AlreadyDeployed) else UndeployStep(AlreadyAbsent)
  }

  /** `keys[i]`, `sps[i]` and `mades[i]` are the key, the serving path and the created
      directories of the `i`-th hack, which is well formed when `wellFormed` is set. */
  predicate Entry(catalogue: seq<(string, Hack)>, keys: seq<string>, sps: seq<string>, mades: seq<set<string>>,
                  wellFormed: bool, i: nat)
    requires |keys| == |sps| == |mades| == |catalogue| && i < |catalogue|
  {
    && keys[i] == catalogue[i].0
    && InScope(catalogue[i].1.url)
    && sps[i] == ServingPath(catalogue[i].1.url) && mades[i] == MadeDirs(catalogue[i].1.url)
    && (wellFormed ==> WellFormed(catalogue[i].1))
  }

  /** Each step reported so far is a deployment exactly when its key is enabled. */
  predicate Reports(steps: seq<StepOutcome>, keys: seq<string>, config: map<string, JsonValue>)
    requires |steps| <= |keys|
  {
    forall j :: 0 <= j < |steps| ==> (steps[j].DeployStep? <==> Truthy(config, keys[j]))
  }

  lemma ReportsAppend(steps: seq<StepOutcome>, step: StepOutcome, keys: seq<string>, config: map<string, JsonValue>)
    requires |steps| < |keys| && Reports(steps, keys, config)
    requires step.DeployStep? <==> Truthy(config, keys[|steps|])
    ensures Reports(steps + [step], keys, config)
  {
  }

  /** The steps so far are the first ones of `expected`. */
  predicate Agrees(steps: seq<StepOutcome>, expected: seq<StepOutcome>)
  {
    |steps| <= |expected| && forall j :: 0 <= j < |steps| ==> steps[j] == expected[j]
  }

  lemma AgreesAppend(steps: seq<StepOutcome>, step: StepOutcome, expected: seq<StepOutcome>)
    requires Agrees(steps, expected) && |steps| < |expected| && step == expected[|steps|]
    ensures Agrees(steps + [step], expected)
  {
  }

  lemma AgreesAll(steps: seq<StepOutcome>, expected: seq<StepOutcome>)
    requires Agrees(steps, expected) && |steps| == |expected|
    ensures steps == expected
  {
  }

  /** The loop of `syncHacksOnLocalServer` once FFDec is installed, with the facts the
      start of the pass supplies. */
  method SyncLoop(fs: FileSystem, catalogue: seq<(string, Hack)>, config: map<string, JsonValue>, tmps: seq<string>,
                  tools: Tools, ghost keys: seq<string>, ghost sps: seq<string>, ghost mades: seq<set<string>>,
                  ghost skips: seq<StepOutcome>, ghost conv: bool, ghost ready: bool) returns (out: SyncOutcome)
    requires |keys| == |sps| == |mades| == |tmps| == |skips| == |catalogue|
    requires forall i :: 0 <= i < |catalogue| ==> Entry(catalogue, keys, sps, mades, ready, i)
    requires forall i :: 0 <= i < |tmps| ==> FreshName(tmps[i])
    requires forall i :: 0 <= i < |skips| ==> skips[i] == SkipOf(config, keys[i])
    requires conv ==> forall i :: 0 <= i < |sps| ==> (Truthy(config, keys[i]) <==> fs.Exists(sps[i]))
    requires ready ==> Geometry(sps, mades, tmps) && SyncInvariant(fs.files, fs.dirs, keys, config, sps, tmps, [])
    modifies fs
    ensures out.SyncCompleted? ==>
              && |out.steps| == |catalogue|
              && forall i :: 0 <= i < |catalogue| ==> (out.steps[i].DeployStep? <==> Truthy(config, keys[i]))
    ensures conv ==> out == SyncCompleted(skips) && fs.files == old(fs.files) && fs.dirs == old(fs.dirs)
    ensures ready && out.SyncCompleted? ==> SyncInvariant(fs.files, fs.dirs, keys, config, sps, tmps, out.steps)
  {
    var steps: seq<StepOutcome> := [];
    var i := 0;
    while i < |catalogue|
      invariant 0 <= i <= |catalogue| && |steps| == i
      invariant Reports(steps, keys, config)
      invariant conv ==> fs.files == old(fs.files) && fs.dirs == old(fs.dirs) && Agrees(steps, skips)
      invariant ready ==> SyncInvariant(fs.files, fs.dirs, keys, config, sps, tmps, steps)
    {
      var key, hack := catalogue[i].0, catalogue[i].1;
      assert Entry(catalogue, keys, sps, mades, ready, i);
      ghost var files0, dirs0 := fs.files, fs.dirs;
      var r := SyncStep(fs, key, hack, tmps[i], config, tools, sps[i], mades[i], ready);
      if r.Failed? {
        return SyncThrew(r.message);
      }
      var step := r.value;
      if ready {
        StepKeeps(files0, dirs0, fs.files, fs.dirs, keys, config, sps, mades, tmps, steps, step);
      }
      ReportsAppend(steps, step, keys, config);
      if conv {
        AgreesAppend(steps, step, skips);
      }
      steps := steps + [step];
      i := i + 1;
    }
    if conv {
      AgreesAll(steps, skips);
    }
    return SyncCompleted(steps);
  }

  /** One step of `syncHacksOnLocalServer`: deploy the hack when its key is enabled,
      undeploy it otherwise. A step that throws yields the error. */
  method SyncStep(fs: FileSystem, key: string, hack: Hack, tmp: string, config: map<string, JsonValue>, tools: Tools,
                  ghost sp: string, ghost made: set<string>, ghost frame: bool)
    returns (r: Attempt<StepOutcome>)
    requires InScope(hack.url) && FreshName(tmp) && sp == ServingPath(hack.url) && made == MadeDirs(hack.url)
    requires frame ==> Deployable(hack, fs.files, fs.dirs, tmp) && sp !in fs.dirs
    modifies fs
    ensures r.Done? ==> (r.value.DeployStep? <==> Truthy(config, key))
    ensures (Truthy(config, key) <==> old(fs.Exists(sp))) ==>
              && r == Done(if Truthy(config, key) then DeployStep(AlreadyDeployed) else UndeployStep(AlreadyAbsent))
              && fs.files == old(fs.files) && fs.dirs == old(fs.dirs)
    ensures frame && r.Done? ==>
              && (forall p :: p != sp ==> (p in fs.files <==> p in old(fs.files)))
              && old(fs.dirs) <= fs.dirs <= old(fs.dirs) + made
              && (r.value != DeployStep(NoReplacementApplied) ==> (Truthy(config, key) <==> fs.Exists(sp)))
  {
    if frame {
      ServingFacts(hack.url, tmp);
    }
    if Truthy(config, key) {
      var d := Deploy(fs, hack, tmp, tools);
      if d.DeployThrew? {
        return Failed(d.message);
      }
      if frame {
        DeployAgrees(old(fs.files), old(fs.dirs), fs.files, fs.dirs, sp, made, d);
      }
      r := Done(DeployStep(d));
    } else {
      var u := Undeploy(fs, hack);
      if u.UndeployThrew? {
        return Failed(u.message);
      }
      if frame {
        UndeployAgrees(old(fs.files), old(fs.dirs), fs.files, fs.dirs, sp, u);
      }
      r := Done(UndeployStep(u));
    }
  }

  /** A deployment that did not throw changed only its serving path, added only its
      directories, and leaves the hack deployed unless its replacements failed. */
  lemma DeployAgrees(files0: map<string, string>, dirs0: set<string>, files: map<string, string>, dirs: set<string>,
                     sp: string, made: set<string>, d: DeployOutcome)
    requires !d.DeployThrew? && !EndsWithSlash(sp)
    requires d == AlreadyDeployed <==> ExistsIn(files0, dirs0, sp)
    requires d == AlreadyDeployed ==> files == files0 && dirs == dirs0
    requires d == NoReplacementApplied ==> files == files0 && dirs == dirs0 + made
    requires d == Deployed ==> sp in files && files == files0[sp := files[sp]] && dirs == dirs0 + made
    ensures forall p :: p != sp ==> (p in files <==> p in files0)
    ensures dirs0 <= dirs <= dirs0 + made
    ensures d != NoReplacementApplied ==> ExistsIn(files, dirs, sp)
  {
  }

  /** An undeployment that did not throw changed only its serving path and leaves no
      file there; with no directory there either, the hack is absent. */
  lemma UndeployAgrees(files0: map<string, string>, dirs0: set<string>, files: map<string, string>, dirs: set<string>,
                       sp: string, u: UndeployOutcome)
    requires !u.UndeployThrew? && sp !in dirs0 && !EndsWithSlash(sp)
    requires u == AlreadyAbsent <==> !ExistsIn(files0, dirs0, sp)
    requires u == Undeployed ==> files == files0 - {sp} && dirs == dirs0
    requires u != Undeployed ==> files == files0 && dirs == dirs0
    ensures forall p :: p != sp ==> (p in files <==> p in files0)
    ensures dirs == dirs0
    ensures !ExistsIn(files, dirs, sp)
  {
  }
}
