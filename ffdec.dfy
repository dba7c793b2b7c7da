/** The FFDec bootstrap: choosing a Java executable, reading its version, installing the
    decompiler once, and the guards of the export and import commands. The processes,
    the network and the zip library are the fields of `Tools`; what they answer is a
    parameter of the model. */
module FFDec {
  import opened Text
  import opened Disk

  const FFDecDir := "ffdec"
  const JarPath := "ffdec/ffdec.jar"
  const ZipPath := "ffdec/ffdec.zip"
  const FFDecUrl := "https://github.com/jindrapetrik/jpexs-decompiler/releases/download/version24.1.1/ffdec_24.1.1.zip"

  const NotInstalledMessage := "FFDec not installed. Run setupFFDec() first."
  const JarMissingMessage := "FFDec extraction failed - ffdec.jar not found"
  const ExtractFailedPrefix := "Failed to extract FFDec: "

  /** The Java locations `findJava` tries, in order. */
  const JavaLocations: seq<string> := [
    "/opt/homebrew/opt/openjdk/bin/java",
    "/usr/local/opt/openjdk/bin/java",
    "/usr/bin/java",
    "java"
  ]

  /** What the outside world answers:
      - `fetch` is the HTTP download of a URL;
      - `unzip` is AdmZip reading an archive (absent when the file cannot be read) and
        listing its files by relative path;
      - `decompile` is `ffdec -export script` on an SWF file, giving the exported
        scripts by relative path;
      - `recompile` is `ffdec -importScript` on an SWF file and a scripts directory,
        giving the new SWF. */
  datatype Tools = Tools(
    fetch: string -> Attempt<string>,
    unzip: Option<string> -> Attempt<map<string, string>>,
    decompile: Option<string> -> Attempt<map<string, string>>,
    recompile: (Option<string>, map<string, string>) -> Attempt<string>)

  /** `findJava` accepts a location when it is the bare `java` or exists. */
  predicate Usable(loc: string, present: string -> bool)
  {
    loc == "java" || present(loc)
  }

  /** `findJava`: the first usable location. The bare `java` is the last candidate and
      is always usable, so the loop always returns and its fallback is never reached. */
  method FindJava(present: string -> bool) returns (java: string)
    ensures java in JavaLocations && Usable(java, present)
    ensures exists i :: 0 <= i < |JavaLocations| && JavaLocations[i] == java &&
              forall j :: 0 <= j < i ==> !Usable(JavaLocations[j], present)
  {
    var i := 0;
    while i < |JavaLocations|
      invariant 0 <= i < |JavaLocations|
      invariant forall j :: 0 <= j < i ==> !Usable(JavaLocations[j], present)
    {
      var loc := JavaLocations[i];
      if loc == "java" || present(loc) {
        return loc;
      }
      i := i + 1;
    }
    assert false;
  }

  /** The outcome of running `"<java>" -version`. */
  datatype Probe = ProbeFailed(message: string) | ProbeRan(stdout: string, stderr: string)

  /** What `verifyJava` resolves with. */
  datatype JavaInfo = Unavailable(error: string, path: string) | Available(version: string, path: string)

  /** The text that follows `version` in `java -version` output. */
  const VersionKey := "version \""

  /** The regular expression `/version "([^"]+)"/` matches at `i` with capture `v`. */
  predicate RegexMatch(s: string, i: nat, v: string)
  {
    v != "" && '"' !in v && OccursAt(s, VersionKey + v + "\"", i)
  }

  /** The matcher's test at position `i`: the key, then at least one character before
      the next quote, and that quote. */
  predicate MatchAt(s: string, i: nat)
  {
    OccursAt(s, VersionKey, i)
    && var k := IndexOfChar(s, '"', i + |VersionKey|);
       i + |VersionKey| < k < |s|
  }

  /** The captured group of a match at `i`. */
  function CaptureAt(s: string, i: nat): string
    requires MatchAt(s, i)
  {
    s[i + |VersionKey|..IndexOfChar(s, '"', i + |VersionKey|)]
  }

  /** The leftmost match position at or after `from`. */
  function FirstMatch(s: string, from: nat): (r: Option<nat>)
    requires from <= |s|
    ensures r.Some? ==> from <= r.value < |s| && MatchAt(s, r.value)
    ensures forall j :: from <= j && (r.None? || j < r.value) ==> !MatchAt(s, j)
    decreases |s| - from
  {
    if MatchAt(s, from) then Some(from)
    else if from == |s| then None
    else FirstMatch(s, from + 1)
  }

  /** The output `verifyJava` searches: `stderr || stdout`. */
  function VersionOutput(stdout: string, stderr: string): string
  {
    if stderr != "" then stderr else stdout
  }

  /** The version `verifyJava` reports: the capture of the first match of the pattern,
      or `unknown` when it matches nowhere. */
  function Version(out: string): (v: string)
    ensures FirstMatch(out, 0).None? ==> v == "unknown"
    ensures FirstMatch(out, 0).Some? ==> RegexMatch(out, FirstMatch(out, 0).value, v)
  {
    match FirstMatch(out, 0)
    case None => "unknown"
    case Some(i) =>
      MatchAtIsRegexMatch(out, i);
      CaptureAt(out, i)
  }

  /** `verifyJava` over the outcome of the probe. */
  function VerifyJava(javaPath: string, probe: Probe): (info: JavaInfo)
    ensures info.path == javaPath
    ensures info.Unavailable? <==> probe.ProbeFailed?
    ensures probe.ProbeFailed? ==> info.error == probe.message
    ensures probe.ProbeRan? ==> info.version == Version(if probe.stderr != "" then probe.stderr else probe.stdout)
  {
    match probe
    case ProbeFailed(message) => Unavailable(message, javaPath)
    case ProbeRan(stdout, stderr) => Available(Version(VersionOutput(stdout, stderr)), javaPath)
  }

  /** The matcher's test agrees with the regular expression, whose capture is unique. */
  lemma MatchAtIsRegexMatch(s: string, i: nat)
    ensures MatchAt(s, i) ==> RegexMatch(s, i, CaptureAt(s, i))
    ensures forall v :: RegexMatch(s, i, v) ==> MatchAt(s, i) && CaptureAt(s, i) == v
  {
    var n := |VersionKey|;
    if MatchAt(s, i) {
      var k := IndexOfChar(s, '"', i + n);
      var v := s[i + n..k];
      assert '"' !in v by {
        forall j | 0 <= j < |v| ensures v[j] != '"' {
          assert v[j] == s[i + n + j];
        }
      }
      assert s[i..i + n + |v| + 1] == VersionKey + v + "\"" by {
        assert s[i..i + n + |v| + 1] == s[i..i + n] + s[i + n..k] + s[k..k + 1];
      }
    }
    forall v | RegexMatch(s, i, v) ensures MatchAt(s, i) && CaptureAt(s, i) == v {
      RegexMatchParts(s, i, v);
    }
  }

  lemma RegexMatchParts(s: string, i: nat, v: string)
    requires RegexMatch(s, i, v)
    ensures MatchAt(s, i) && CaptureAt(s, i) == v
  {
    var n := |VersionKey|;
    var m := VersionKey + v + "\"";
    assert s[i..i + |m|] == m;
    assert s[i..i + n] == m[..n];
    assert OccursAt(s, VersionKey, i);
    assert forall j :: i + n <= j < i + n + |v| ==> s[j] == v[j - i - n] && s[j] != '"';
    assert s[i + n + |v|] == m[n + |v|] == '"';
    assert IndexOfChar(s, '"', i + n) == i + n + |v|;
    assert s[i + n..i + n + |v|] == m[n..n + |v|] == v;
  }

  /** The version is the capture of the leftmost match of `/version "([^"]+)"/`, and
      `unknown` exactly when the pattern matches nowhere. */
  lemma VersionIsLeftmostMatch(out: string)
    ensures FirstMatch(out, 0).Some? ==>
              var i := FirstMatch(out, 0).value;
              RegexMatch(out, i, Version(out)) && forall j, w :: 0 <= j < i ==> !RegexMatch(out, j, w)
    ensures FirstMatch(out, 0).None? ==>
              Version(out) == "unknown" && forall j, w :: !RegexMatch(out, j, w)
  {
    match FirstMatch(out, 0)
    case Some(i) =>
      MatchAtIsRegexMatch(out, i);
      forall j: nat, w: string | j < i ensures !RegexMatch(out, j, w) {
        MatchAtIsRegexMatch(out, j);
      }
    case None =>
      forall j: nat, w: string ensures !RegexMatch(out, j, w) {
        MatchAtIsRegexMatch(out, j);
      }
  }

  /** The version read from a successful probe is stderr's when stderr is not empty. */
  lemma VersionFromStderr(javaPath: string, stdout: string, stderr: string)
    requires stderr != ""
    ensures VerifyJava(javaPath, ProbeRan(stdout, stderr)) == Available(Version(stderr), javaPath)
  {
  }

  /** With an empty stderr the version is read from stdout. */
  lemma VersionFromStdout(javaPath: string, stdout: string)
    ensures VerifyJava(javaPath, ProbeRan(stdout, "")) == Available(Version(stdout), javaPath)
  {
  }

  /** The jar lies in the FFDec directory and names a file. */
  lemma JarInToolDir()
    ensures Within(JarPath, FFDecDir) && !EndsWithSlash(JarPath)
  {
    WithinSlash(FFDecDir, "ffdec.jar");
    assert JarPath == FFDecDir + "/" + "ffdec.jar";
  }

  /** How `setupFFDec` ended. */
  datatype SetupOutcome = AlreadyInstalled | Installed | SetupThrew(message: string)

  /** `setupFFDec`: skip when the jar is there; otherwise create the directory, download
      the archive, extract it, delete the archive whatever the extraction did, and
      demand the jar. */
  method SetupFFDec(fs: FileSystem, tools: Tools) returns (out: SetupOutcome)
    modifies fs
    ensures out == AlreadyInstalled <==> old(fs.Exists(JarPath))
    ensures out == AlreadyInstalled ==> fs.files == old(fs.files) && fs.dirs == old(fs.dirs)
    ensures out == Installed ==> fs.Exists(JarPath)
    ensures ZipPath in fs.files ==>
              out == AlreadyInstalled || (out.SetupThrew? && ZipPath in old(fs.files) && fs.files == old(fs.files))
    ensures FilesOutside(fs.files, FFDecDir) == FilesOutside(old(fs.files), FFDecDir)
    ensures DirsOutside(fs.dirs, FFDecDir) == DirsOutside(old(fs.dirs), FFDecDir)
  {
    if fs.Exists(JarPath) {
      return AlreadyInstalled;
    }
    var installed := Install(fs, tools);
    out := if installed.Completed? then Installed else SetupThrew(installed.error);
  }

  /** The installing part of `setupFFDec`: create the directory, download the archive,
      extract it, and demand the jar. */
  method Install(fs: FileSystem, tools: Tools) returns (r: Completion)
    modifies fs
    ensures r.Completed? ==> fs.Exists(JarPath)
    ensures ZipPath in fs.files ==> r.Threw? && ZipPath in old(fs.files) && fs.files == old(fs.files)
    ensures FilesOutside(fs.files, FFDecDir) == FilesOutside(old(fs.files), FFDecDir)
    ensures DirsOutside(fs.dirs, FFDecDir) == DirsOutside(old(fs.dirs), FFDecDir)
  {
    if !fs.Exists(FFDecDir) {
      MakeToolDir(fs);
      DirsOutsideAdd(old(fs.dirs), {FFDecDir}, FFDecDir);
    }
    r := Fetch(fs, tools);
    if r.Completed? && !fs.Exists(JarPath) {
      r := Threw(JarMissingMessage);
    }
  }

  /** Download the archive and extract it; the archive never survives a download that
      succeeded. */
  method Fetch(fs: FileSystem, tools: Tools) returns (r: Completion)
    modifies fs
    ensures ZipPath in fs.files ==> r.Threw? && ZipPath in old(fs.files) && fs.files == old(fs.files)
    ensures FilesOutside(fs.files, FFDecDir) == FilesOutside(old(fs.files), FFDecDir)
    ensures DirsOutside(fs.dirs, FFDecDir) == DirsOutside(old(fs.dirs), FFDecDir)
  {
    var downloaded := fs.Download(FFDecUrl, ZipPath, tools.fetch);
    if downloaded.Threw? {
      return downloaded;
    }
    WithinSlash(FFDecDir, "ffdec.zip");
    OutsideUpdate(old(fs.files), ZipPath, tools.fetch(FFDecUrl).value, FFDecDir);
    r := Extract(fs, tools);
  }

  /** `fs.mkdirSync(ffdecDir, {recursive: true})` when the directory is missing: it
      creates the FFDec directory and nothing else. */
  method MakeToolDir(fs: FileSystem)
    requires !fs.Exists(FFDecDir)
    modifies fs
    ensures fs.files == old(fs.files) && fs.dirs == old(fs.dirs) + {FFDecDir}
  {
    AncestorsOfName(FFDecDir);
    var made := fs.MkdirAll(FFDecDir);
    assert made.Completed?;
  }

  /** The `try`/`catch`/`finally` of `setupFFDec`: extract the archive into the FFDec
      directory, and remove the archive afterwards whether or not that worked. An error
      from the removal replaces the extraction's. */
  method Extract(fs: FileSystem, tools: Tools) returns (r: Completion)
    modifies fs
    ensures ZipPath !in fs.files
    ensures FilesOutside(fs.files, FFDecDir) == FilesOutside(old(fs.files), FFDecDir)
    ensures DirsOutside(fs.dirs, FFDecDir) == DirsOutside(old(fs.dirs), FFDecDir)
  {
    var extractError := Unpack(fs, tools);
    if fs.Exists(ZipPath) {
      assert !EndsWithSlash(ZipPath);
      var files := fs.files;
      var removed := fs.Unlink(ZipPath);
      if removed.Threw? {
        return Threw(removed.error);
      }
      WithinSlash(FFDecDir, "ffdec.zip");
      OutsideRemove(files, ZipPath, FFDecDir);
    }
    if extractError.Some? {
      return Threw(extractError.value);
    }
    r := Completed;
  }

  /** The `try` block of the extraction: AdmZip unpacks the archive into the FFDec
      directory, or the error message is kept for later. */
  method Unpack(fs: FileSystem, tools: Tools) returns (extractError: Option<string>)
    modifies fs
    ensures extractError.None? <==> tools.unzip(old(fs.Read(ZipPath))).Done?
    ensures FilesOutside(fs.files, FFDecDir) == FilesOutside(old(fs.files), FFDecDir)
    ensures DirsOutside(fs.dirs, FFDecDir) == DirsOutside(old(fs.dirs), FFDecDir)
  {
    match tools.unzip(fs.Read(ZipPath)) {
      case Done(tree) =>
        fs.PlaceTree(FFDecDir, tree);
        OutsidePlace(old(fs.files), FFDecDir, FFDecDir, tree);
        DirsOutsideAdd(old(fs.dirs), {FFDecDir} + PrefixedDirs(FFDecDir, tree), FFDecDir);
        extractError := None;
      case Failed(message) =>
        extractError := Some(ExtractFailedPrefix + message);
    }
  }

  /** `exportScripts(swfFile, outputDir)`: refuses before running anything when the jar
      is missing; otherwise the exported scripts appear below `outputDir`. */
  method ExportScripts(fs: FileSystem, swfFile: string, outputDir: string, tools: Tools) returns (r: Completion)
    modifies fs
    ensures !old(fs.Exists(JarPath)) ==> r == Threw(NotInstalledMessage)
    ensures r.Completed? ==>
              old(fs.Exists(JarPath)) && tools.decompile(old(fs.Read(swfFile))).Done?
              && fs.files == old(fs.files) + Prefixed(outputDir, tools.decompile(old(fs.Read(swfFile))).value)
              && fs.dirs == old(fs.dirs) + {outputDir} + PrefixedDirs(outputDir, tools.decompile(old(fs.Read(swfFile))).value)
    ensures r.Threw? ==> fs.files == old(fs.files) && fs.dirs == old(fs.dirs)
  {
    if !fs.Exists(JarPath) {
      return Threw(NotInstalledMessage);
    }
    match tools.decompile(fs.Read(swfFile))
    case Failed(message) =>
      return Threw(message);
    case Done(scripts) =>
      fs.PlaceTree(outputDir, scripts);
      return Completed;
  }

  /** `importScripts(inputSwf, outputSwf, scriptsDir)`: refuses before running anything
      when the jar is missing; otherwise the rebuilt SWF is written to `outputSwf`. */
  method ImportScripts(fs: FileSystem, inputSwf: string, outputSwf: string, scriptsDir: string, tools: Tools)
    returns (r: Completion)
    modifies fs
    ensures !old(fs.Exists(JarPath)) ==> r == Threw(NotInstalledMessage)
    ensures r.Completed? ==>
              old(fs.Exists(JarPath))
              && tools.recompile(old(fs.Read(inputSwf)), Relative(old(fs.files), scriptsDir)).Done?
              && fs.files == old(fs.files)[outputSwf := tools.recompile(old(fs.Read(inputSwf)), Relative(old(fs.files), scriptsDir)).value]
              && fs.dirs == old(fs.dirs)
    ensures r.Threw? ==> fs.files == old(fs.files) && fs.dirs == old(fs.dirs)
  {
    if !fs.Exists(JarPath) {
      return Threw(NotInstalledMessage);
    }
    match tools.recompile(fs.Read(inputSwf), Relative(fs.files, scriptsDir))
    case Failed(message) =>
      return Threw(message);
    case Done(swf) =>
      r := fs.Save(outputSwf, swf);
  }
}
