# A verified model of the Flash hack patcher's core

The application downloads a Flash game asset (an SWF) from the game's CDN, decompiles
its ActionScript with the FFDec tool, applies ordered find/replace rules to the exported
scripts, rebuilds the SWF and puts it in a local `server/` directory. A small HTTP server
on `127.0.0.1` serves that directory, and a request hook redirects the game's request for
the original asset to the local copy. This project models the sequential logic of that
pipeline in Dafny and proves what it does:

- `hacks.dfy` (module `Hacks`) models `deployHack`, `undeployHack` and
  `syncHacksOnLocalServer`. It covers the path derivation from the hack URL, the
  replacement loops with their `modified`/`anyModified` flags, the no-match abort, the
  install step and the reconciliation pass that keeps the serving directory in line
  with the configuration.
- `server.dfy` (module `Server`) models the port search, the `hacksByUrl` index, the
  redirect decision, the request handler's traversal guard and status choice, and the
  `activePort` state set by `setupLocalServer`. The state is the class `LocalServer`.
- `ffdec.dfy` (module `FFDec`) models `findJava`, the version extraction of
  `verifyJava`, the install-once sequence of `setupFFDec`, and the jar guards of
  `exportScripts` and `importScripts`.
- `config.dfy` (module `Config`) models the in-place merge of `updateConfig` (class
  `ConfigStore`) and the rule that creates `config.json` from its example.

The supporting modules model the library behaviour the core relies on:

- `disk.dfy` (module `Disk`) is the file system, a class `FileSystem` whose state is a
  map from file paths to contents and a set of directories. Its methods are the `fs`
  calls the core makes.
- `posix_path.dfy` (module `PosixPath`) models Node's `path.posix` `normalize`, `join`
  and `resolve` as a segment stack.
- `whatwg_url.dfy` (module `WhatwgUrl`) models the path state of the WHATWG URL Standard
  (section 4.4, "path state", with its single-dot and double-dot segments) and URL path
  serialisation, giving `new URL(url).pathname`.
- `text.dfy` (module `Text`) models `startsWith`, `includes`, `indexOf`, `split`/`join`,
  and `String.prototype.replace` with a string pattern, including the `$` patterns of
  the GetSubstitution operation of ECMA-262.

Everything outside the process is a parameter:

- the network, AdmZip and the two FFDec commands are the function fields of
  `FFDec.Tools`;
- port availability and the outcome of `listen` are functions given to the server
  methods;
- the outcome of `fs.readFile` in the request handler (server.js:84) is the function
  `read` given to `Server.Handle` and `Server.HandleContained`;
- the `crypto.randomUUID()` name is a parameter required to be fresh;
- `CDN_URL`, `hacks.json` and the loaded configuration are parameters.

A hack catalogue is a sequence of `(key, hack)` pairs in the object's iteration order.

Three behaviours of the code are worth stating outright, because the model keeps them:

- **A throw ends the sync pass.** `syncHacksOnLocalServer` has no `try`, so one hack's
  failure aborts the pass. `Hacks.Sync` ends at the first throw and reports that error.
- **The work directory is not always removed.** `deployHack` removes it only after the
  no-match abort and after the copy, so a throw in download, export or import leaves it
  behind. `Hacks.Deploy` states only what holds outside the work directory.
- **There is no work-area tracking.** The code has no cleanup-on-exit handler for work
  directories, and neither does the model.

## Model

| member | source | states |
|---|---|---|
| Hacks.ScriptPathList | hacks.js:38 | an absent `scriptPaths` gives the one-element list `[scriptPath]`; a present one, even empty, is used element by element |
| Hacks.ApplyRule | hacks.js:47-53 | the script counts as modified exactly when `find` occurs; a match replaces only the first occurrence; with no match the text is unchanged |
| Hacks.PatchStep | hacks.js:47-53 | each rule is tested against, and applied to, the text the earlier rules left, and the flag becomes true when that rule's `find` occurs there |
| Hacks.IntermediatePrefix | hacks.js:47-53 | the later rules do not change what the earlier ones see |
| Hacks.PatchModifiedIff | hacks.js:45-53 | `modified` is true if and only if some rule's `find` occurs in the text the earlier rules left |
| Hacks.PatchText | hacks.js:47-53 | the inner loop over the rules; a script with no matching rule keeps its text exactly |
| Hacks.PatchOne | hacks.js:42-58 | one visit of a script path never adds or removes a file; it throws exactly on an undefined path or an existing path that is not a readable file, and a throw is final; without a throw, `anyModified` becomes true exactly when it was or a rule matches the readable file's text |
| Hacks.PatchFiles | hacks.js:41-60 | the outer loop never adds or removes a file |
| Hacks.PatchFailureStays | hacks.js:41-60 | once a `readFileSync` throws, the remaining script paths are not looked at |
| Hacks.PatchNoMatchKeepsFiles | hacks.js:55-58 | when no rule matched anywhere, every file keeps its content |
| Hacks.PatchLeavesOthers | hacks.js:41-60 | a file that is not one of the script paths keeps its content |
| Hacks.MissingContributesNothing | hacks.js:42-43 | a script path missing from the export is skipped and contributes nothing, `anyModified` included |
| Hacks.PatchOutside | hacks.js:41-60 | script paths that all lie in a directory change nothing outside it |
| Hacks.PatchFailureIff | hacks.js:41-44 | the loop throws exactly when a script path is absent from the hack or names something that exists but is not a readable file |
| Hacks.PatchContents | hacks.js:44-56 | without a throw, each readable script holds its own patched text |
| Hacks.PatchAny | hacks.js:39-51 | without a throw, `anyModified` is true if and only if some readable script had a matching rule in its original text, also when a script path is listed more than once |
| Hacks.PatchChangedMatched | hacks.js:39-58 | a file the loop rewrote is a target whose original text some rule matched; every other file keeps its text |
| Hacks.PatchTargets | hacks.js:39-60 | the three facts above together: when the loop throws, what each script then holds, and what `anyModified` says |
| Hacks.ApplyReplacements | hacks.js:39-60 | the imperative loops leave exactly the files, flag and error of `PatchFiles`, and create no directory |
| Hacks.Targets | hacks.js:42 | each script path is joined below the scripts directory, and an absent one stays absent |
| Hacks.WorkPath | hacks.js:23-24 | `path.join(tmpDir, name)` is `tmpDir/name`, a file directly in the work directory |
| Hacks.TargetsWithin | hacks.js:24-42 | every plain script path of a well-formed hack lies below the work directory |
| Hacks.ScriptTargetWithin | hacks.js:42 | one plain script path joined below the scripts directory stays in the work directory |
| Hacks.ServingSplit | hacks.js:12-26 | the serving path is the created directory, a `/` and the SWF name, and that directory is `server` or lies below it |
| Hacks.ServerSplit | hacks.js:12-26 | `server` joined with the served segments, cut before the last one, is that directory plus `/` plus the name |
| Hacks.ServerJoin | hacks.js:12 | joining `server` with segments ends in `/` and the last segment, after a prefix that is `server` or lies below it |
| Hacks.ServingFacts | hacks.js:12-28 | the serving path lies in `server`, outside the work directory and the FFDec directory, names a file, and its parent is among the directories `mkdirSync` creates, all of which lie outside the work and FFDec directories |
| Hacks.ChildOfServer | hacks.js:12-28 | a file directly in a directory under `server` lies in `server` and outside the work directory and the FFDec directory |
| Hacks.OutputBesideScripts | hacks.js:70 | the rebuilt SWF is not below the scripts directory, so exporting cannot overwrite it |
| Hacks.Deploy | hacks.js:9-82 | an existing serving file is skipped with no change. Given a well-formed hack and an unused work directory: the no-match abort leaves every file as it was but keeps the serving file's parent directory; a success changes only the serving file, which then holds the SWF rebuilt from the downloaded asset's scripts as the rules patched them (`Hacks.DeployedSwf`); a throw leaves everything outside the work directory as before, with no serving file |
| Hacks.Prepare | hacks.js:19-28 | creates the work directory and then the serving directories; a failure adds nothing but perhaps the work directory |
| Hacks.DeployFrames | hacks.js:14-79 | composes the frames of the phases into the outcome `deployHack` promises as seen from outside the work directory |
| Hacks.DeployGeometry | hacks.js:12-42 | the downloaded SWF, the scripts, the script paths and the rebuilt SWF lie in the work directory; the serving path and its created directories lie outside it |
| Hacks.NameFacts | hacks.js:22 | the SWF name of a file URL is an ordinary segment without `/` |
| Hacks.WorkPlaced | hacks.js:23-24 | the SWF, the scripts directory and the rebuilt SWF are in the work directory, and the rebuilt SWF is not below the scripts directory |
| Hacks.MadeDirsOutside | hacks.js:20-28 | removing the work directory again leaves exactly the serving directories that were added |
| Hacks.Stage | hacks.js:31-79 | from the download on, a no-match abort changes nothing outside the work directory; a success changes only the serving file outside it, writing there the SWF rebuilt from the exported scripts as patched (`Hacks.RebuiltSwf`); a throw changes nothing outside it |
| Hacks.ExportOutside | hacks.js:35 | the export into the scripts directory changes nothing outside the work directory |
| Hacks.Finish | hacks.js:68-79 | a success writes the rebuilt SWF to the serving path and removes the work directory; a throw removes nothing and changes at most the rebuilt SWF |
| Hacks.Undeploy | hacks.js:84-97 | an absent serving file is skipped with no change; otherwise exactly the serving file is deleted, and nothing else changes; unlinking a directory throws and changes nothing |
| Hacks.Skips | hacks.js:14-92 | a pass over a converged directory reports a skipped deploy for every enabled key and a skipped undeploy for every other key |
| Hacks.GeometryHolds | hacks.js:12-28 | for independent, well-formed hacks the serving paths, created directories and work directories do not interfere |
| Hacks.OneGeometry | hacks.js:12-28 | one hack's serving path and created directories lie outside its work directory and the FFDec directory |
| Hacks.StepKeeps | hacks.js:101-107 | a step that touched only its own serving path and directories keeps the earlier steps' agreement with the configuration and adds its own unless its replacements failed |
| Hacks.SetupKeeps | hacks.js:100 | installing FFDec touches only the FFDec directory, so the pass starts with nothing deployed wrongly |
| Hacks.Sync | hacks.js:99-109 | a completed pass deploys every key that is enabled (`currentConfig[key]` truthy, a missing key being falsy) and undeploys every other key, in order; on a converged directory it reports every step skipped and changes nothing; from a ready state it leaves FFDec installed and each serving file present exactly when its key is enabled, except for a hack whose replacements failed. The catalogue's keys (`Hacks.Keys`), serving paths (`Hacks.ServingPaths`) and created directories (`Hacks.MadeDirSets`) are taken position by position |
| Hacks.PassConverges | hacks.js:99-109 | a pass with no replacement failure leaves the directory converged |
| Hacks.SyncTwice | hacks.js:99-109 | after a completed pass with no replacement failure, an immediate second pass skips every hack and changes nothing |
| Hacks.EntriesHold | hacks.js:99-103 | what the start of the pass supplies to its loop: the per-hack keys and paths, and convergence read off as existence of each serving file |
| Hacks.SyncEnd | hacks.js:99-109 | the loop invariant at the end of the pass is the convergence promise |
| Hacks.ReportsAppend | hacks.js:103-107 | each step reported is a deployment exactly when its key is enabled |
| Hacks.AgreesAppend | hacks.js:101-107 | on a converged directory each step reported is the expected skip |
| Hacks.AgreesAll | hacks.js:101-107 | on a converged directory the steps reported are all the expected skips |
| Hacks.SyncLoop | hacks.js:101-108 | the loop of the pass: steps in order, a deploy exactly for the enabled keys, no change on a converged directory, and the invariant kept |
| Hacks.SyncStep | hacks.js:102-107 | an enabled key deploys and any other undeploys; a step whose hack already agrees with the configuration is a skip with no change; otherwise only its serving path and directories change |
| Hacks.DeployAgrees | hacks.js:9-82 | a deployment that did not throw changed only its serving path, added only its directories, and leaves the hack deployed unless its replacements failed |
| Hacks.UndeployAgrees | hacks.js:84-97 | an undeployment that did not throw leaves the serving path absent and changed nothing else |
| Server.FirstAvailable | server.js:28-34 | the lowest port in the window from `from` for which the probe answers yes, and none exactly when every port is unavailable |
| Server.FindAvailablePort | server.js:28-39 | returns the lowest available port in 8420..8429, and throws with the fixed message "No available ports found in range 8420-8429. Please close other applications using these ports." exactly when none is available |
| Server.BuildIndex | server.js:47-53 | the map's keys are the hacks' URLs, every URL is a key, and each URL maps to the last hack in iteration order that has it |
| Server.IndexAppend | server.js:50-51 | assigning the next hack keeps the index right for the longer catalogue, overwriting an earlier hack with the same URL |
| Server.IndexedIsLast | server.js:47-53 | every key of the index comes from the last hack with that URL |
| Server.LastOccurrence | server.js:47-53 | every URL of the catalogue has a last hack that carries it |
| Server.IndexUnique | server.js:47-53 | the index is determined by the catalogue |
| Server.LocalOrigin | server.js:62 | the local origin `http://127.0.0.1:<port>` contains no `$`, so `replace` inserts it verbatim |
| Server.RedirectFor | server.js:55-64 | a request redirects exactly when its URL is an exact key of the index and that hack's `id` is enabled (a missing key is falsy). The redirect target is the URL with its first `CDN_URL` occurrence replaced by the local origin, or the URL itself when it has none |
| Server.RedirectKeepsPath | server.js:61-63 | a URL on the CDN redirects to the same path under the local origin |
| Server.RedirectOfCatalogue | server.js:47-64 | a URL that no hack has is never redirected; a hack's URL redirects exactly when the last hack with that URL is enabled |
| Server.Resolved | server.js:72-75 | `path.resolve(path.join(__dirname, "server", req.url))` is absolute |
| Server.ServerDir | server.js:76 | the resolved server directory is absolute |
| Server.Admitted | server.js:77 | the prefix test admits everything the segment-wise guard admits |
| Server.Respond | server.js:77-95 | 403 exactly when refused, 404 exactly when admitted and the read failed, 200 exactly when admitted and the read succeeded, and then the two headers and the file |
| Server.Handle | server.js:71-96 | 403 exactly when the resolved path does not start with the server directory as a string; otherwise 404 when the read fails and 200 with the shockwave content type, `Access-Control-Allow-Origin: *` and the file when it succeeds |
| Server.HandleContained | server.js:71-96 | the handler with a segment-aware guard: 403 exactly when the resolved path is not at or below the server directory, so nothing else is ever read; otherwise the same 404 and 200 |
| Server.ConfinedIsAdmitted | server.js:77 | the segment-aware guard is the stricter one, and where it admits, the two handlers answer alike |
| Server.JoinedRequest | server.js:72 | for an application directory `/a1/.../an` and a request `/s1/.../sm`, the joined text splits into the directory's segments, `server`, an empty segment and the request's segments |
| Server.ResolvedRequest | server.js:72-75 | resolving the joined request is the segment walk over those segments |
| Server.ServerDirOf | server.js:76 | the server directory of `/a1/.../an` is `/a1/.../an/server` |
| Server.RootedSegments | server.js:75-76 | `path.resolve` keeps every segment of an absolute path of ordinary segments |
| Server.OrdinaryWalk | server.js:72-75 | a request without `..` resolves to the directory, `server` and the request's segments |
| Server.ClimbingWalk | server.js:72-75 | a request that starts with `..` climbs out of `server` into the application directory |
| Server.HandleOrdinary | server.js:72-84 | a request for an ordinary path resolves to `<appDir>/server/<path>`, and both guards admit it |
| Server.AdmittedWithinApp | server.js:77 | whatever the as-written guard admits lies inside the application directory |
| Server.JoinStartsWithFirst | server.js:77 | a `/`-joined path starts with its first segment |
| Server.SiblingAdmitted | server.js:77 | a request `/../serverX/...` resolves to a sibling of the server directory whose name starts with `server`; the as-written guard admits it, though it is not below the server directory |
| Server.PrefixGuardAdmitsSibling | server.js:72-84 | for application directory `/app` and request `/../server.js`, the resolved path is `/app/server.js`; the as-written handler does not answer 403, and the segment-aware one does |
| Server.LocalServer.constructor | server.js:13 | at load time `activePort` is null and no listener is installed |
| Server.LocalServer.SetupRequestListener | server.js:41-65 | with `activePort` null nothing is installed; otherwise the listener's index is `hacksByUrl` for the catalogue, replacing any earlier one |
| Server.LocalServer.SetupLocalServer | server.js:67-118 | with no free port, or when `listen` fails, the result is `{success: false, error}` with the error message, and the state is unchanged; otherwise `activePort` becomes the first free port, the listener is installed and the result is `{success: true, port}` |
| Server.LocalServer.Redirect | server.js:55-64 | with no listener installed every request passes unchanged; otherwise the installed callback makes the redirect decision for the active port |
| FFDec.FindJava | ffdec.js:11-26 | the result is one of the four candidates, accepted (the bare `java`, or a path that exists), with every earlier candidate rejected |
| FFDec.FirstMatch | ffdec.js:44 | the leftmost position at or after `from` where the pattern matches, or none when it matches nowhere there |
| FFDec.Version | ffdec.js:44-45 | the capture of the first match of `/version "([^"]+)"/`, or `unknown` when the pattern matches nowhere |
| FFDec.VerifyJava | ffdec.js:31-52 | a failed probe gives `available: false` with the probe's error message; a probe that ran gives `available: true` with the version read from stderr, or from stdout when stderr is empty; the path is always the Java path |
| FFDec.MatchAtIsRegexMatch | ffdec.js:44 | the matcher agrees with `/version "([^"]+)"/`, whose capture at a position is unique |
| FFDec.RegexMatchParts | ffdec.js:44 | a match of the pattern is a match of the matcher, with the same capture |
| FFDec.VersionIsLeftmostMatch | ffdec.js:43-45 | the version is the capture of the leftmost match: non-empty text without `"` inside `version "..."`. It is `unknown` exactly when the pattern matches nowhere |
| FFDec.VersionFromStderr | ffdec.js:43 | a non-empty stderr is the output searched, not stdout |
| FFDec.VersionFromStdout | ffdec.js:43 | with an empty stderr the version comes from stdout |
| FFDec.JarInToolDir | ffdec.js:57 | the jar path names a file in the FFDec directory |
| FFDec.SetupFFDec | ffdec.js:54-91 | with the jar present nothing changes, so repeated calls are idempotent; a normal return means the jar exists; the zip never survives a download that succeeded; nothing outside the FFDec directory changes |
| FFDec.Install | ffdec.js:63-88 | a success leaves the jar in place; the zip survives only when it was there before and the download failed; only the FFDec directory changes |
| FFDec.Fetch | ffdec.js:69-84 | download and extraction leave no zip unless the download failed on a zip already there; only the FFDec directory changes |
| FFDec.MakeToolDir | ffdec.js:65-67 | a missing FFDec directory is created, and nothing else |
| FFDec.Extract | ffdec.js:73-84 | the zip is deleted whether extraction succeeds or fails; only the FFDec directory changes |
| FFDec.Unpack | ffdec.js:74-78 | extraction reports no error exactly when the archive unpacks; it writes only below the FFDec directory |
| FFDec.ExportScripts | ffdec.js:93-108 | a missing jar rejects with "FFDec not installed" before anything runs; otherwise the exported scripts appear below the output directory |
| FFDec.ImportScripts | ffdec.js:110-125 | a missing jar rejects with "FFDec not installed" before anything runs; otherwise the rebuilt SWF from the scripts directory is written to the output path and nothing else |
| Config.Truthy | hacks.js:103 | a missing key is falsy, and a present key is truthy exactly when its value is |
| Config.Merge | config.js:15 | the keys after the merge are the old keys and the update's, and a key the update does not write keeps its value |
| Config.UpdateKeys | config.js:15 | the keys of an update are exactly the keys it writes |
| Config.UpdateMap | config.js:15 | the update's last-written value per key, with the update's keys |
| Config.MergeIsUnion | config.js:14-15 | writing key by key equals the map union in which the update wins |
| Config.MergeFacts | config.js:14-15 | every key of the update maps to the value written last for it; every other key keeps its value; the keys are the old ones and the update's; an empty update changes nothing |
| Config.MergeIdempotent | config.js:15 | applying the same update twice is applying it once |
| Config.LastValueSingle | config.js:15 | a key the update writes once gets exactly that value |
| Config.ConfigStore.constructor | config.js:11-12 | the shared configuration is the object loaded from `config.json` |
| Config.ConfigStore.UpdateConfig | config.js:14-15 | the shared object is updated in place, key by key, to the merge of its old value and the update |
| Config.Bootstrap | config.js:7-9 | the example is copied only when `config.json` is missing and the example exists; an existing configuration is never overwritten |
| Disk.FileSystem.Read | hacks.js:44 | a read yields the file's contents exactly when the path is a file |
| Disk.FileSystem.MakeDir | hacks.js:20 | `mkdirSync(p)` succeeds exactly when nothing is at `p` and its parent exists, and then adds only `p` |
| Disk.FileSystem.MkdirAll | hacks.js:26-28 | recursive `mkdirSync` succeeds exactly when the path is not empty and no file stands on it, and adds its ancestors |
| Disk.FileSystem.Save | download.js:35 | writing a whole file creates or truncates exactly the one file, when its parent exists and it is no directory; it is the write of every download (hacks.js:31, ffdec.js:71) and of the SWF FFDec rebuilds (ffdec.js:117) |
| Disk.FileSystem.Overwrite | hacks.js:56 | `writeFileSync` over an existing script replaces its contents and changes nothing else |
| Disk.FileSystem.Exists | hacks.js:14 | `existsSync` holds for a path without a trailing `/` exactly when it is a file or a directory, and for one with a trailing `/` only when it names a directory |
| Disk.FileSystem.Download | hacks.js:31 | the fetched body is written to the target when the fetch and the write succeed; otherwise nothing changes |
| Disk.FileSystem.CopyFile | hacks.js:78 | `copyFileSync` succeeds exactly when the source is a file and the target writable, and changes only the target |
| Disk.FileSystem.Unlink | hacks.js:94 | `unlinkSync` removes exactly the one file, and fails on anything else with no change |
| Disk.FileSystem.RemoveTree | hacks.js:64 | `rmSync(p, {recursive, force})` removes exactly what is at or below `p` and never fails |
| Disk.FileSystem.PlaceTree | ffdec.js:76 | an extraction adds its files below the directory, overwriting, and the directories they need |
| Disk.Ancestors | hacks.js:26-28 | the directories a recursive `mkdirSync` passes through are the prefixes of the path ending at a segment boundary |
| Disk.RemoveRestores | hacks.js:64 | removing a work directory that was absent gives back the files outside it |
| Disk.OutsideUpdate | hacks.js:56 | writing inside a directory changes nothing outside it |
| Disk.OutsideRemove | ffdec.js:82 | removing a file inside a directory changes nothing outside it |
| Disk.OutsidePlace | hacks.js:35 | placing a tree inside a directory changes nothing outside it |
| Disk.DirsOutsideAdd | hacks.js:20 | directories created inside a directory change nothing outside it |
| Disk.AncestorsOutside | hacks.js:26-28 | the directories created for a serving path under `server` lie outside any other single-segment directory |
| Disk.WithinDistinct | hacks.js:19 | no path lies in two different single-segment directories |
| Disk.OutsideOfNothing | hacks.js:64 | removing an empty work directory changes nothing |
| PosixPath.Normalize | server.js:71 | `path.posix.normalize` is never empty, is absolute exactly when its input is, and keeps a trailing `/` |
| PosixPath.Join | server.js:71 | `path.posix.join` is never empty, is `.` when every argument is empty, and is absolute exactly when its first non-empty argument is |
| PosixPath.ResolveAbsolute | server.js:75 | `path.posix.resolve` of an absolute path is absolute and has no trailing `/` unless it is the root |
| PosixPath.ResolveSegments | server.js:75 | the segments `normalizeString` keeps are never empty or `.`, and `..` only when going above the root is allowed |
| PosixPath.ResolveAppendNoDotDot | hacks.js:12 | without `..`, normalisation only drops empty and `.` segments |
| PosixPath.JoinOrdinary | hacks.js:42 | joining ordinary segments needs no normalisation |
| PosixPath.NormalizeAbsolute | server.js:75 | `normalize` of an absolute path keeps the root and a trailing `/` when something is left |
| PosixPath.ResolveOfNormalize | server.js:75-76 | `resolve(normalize(p))` is the root and the kept segments, with no trailing `/` |
| PosixPath.JoinAbsolute | server.js:72 | `join` keeps an absolute first argument absolute |
| PosixPath.ResolvedJoin | server.js:72-76 | `resolve(join(...))` of an absolute first part is the root and the kept segments of the joined text |
| PosixPath.ResolveAbsoluteOrdinary | server.js:76 | an absolute path of ordinary segments resolves to itself, without a trailing `/` |
| PosixPath.JoinBaseWithPath | hacks.js:12 | `path.join("server", pathname)` of a clean pathname is `server` and its kept segments, joined by `/` |
| PosixPath.JoinTwoOrdinary | hacks.js:23-24 | joining two `/`-joined lists of ordinary segments joins the lists |
| WhatwgUrl.Pathname | hacks.js:12 | the `pathname` of an `http` or `https` URL is never empty and starts with `/` |
| WhatwgUrl.ServingPath | hacks.js:12 | the serving path is a non-empty relative path, read against the working directory |
| WhatwgUrl.MkdirTarget | hacks.js:26 | the directory created is a prefix of the serving path, shorter by the length of the file name, or the empty path |
| WhatwgUrl.WalkKeepsNoDots | hacks.js:12 | the URL parser's path never holds a dot segment or a `/` |
| WhatwgUrl.WalkLast | hacks.js:12 | the parsed path ends with the last raw segment, or with an empty segment when that is a dot segment |
| WhatwgUrl.SerializeJoin | hacks.js:12 | `pathname` is `/` followed by the `/`-join of the path |
| WhatwgUrl.SwfName | hacks.js:22 | `/[^/]*$/` matches text without `/` |
| WhatwgUrl.SliceDropEnd | hacks.js:26 | `slice(0, -n)`: a zero `n` gives the empty string, as `-0` is `0` |
| WhatwgUrl.SwfNameIsLastSegment | hacks.js:22 | the SWF name is the last raw segment of the URL's path |
| WhatwgUrl.FileUrlPaths | hacks.js:12-26 | the serving path is `server` joined with the served segments; the SWF name is the last of them; the created directory plus the name is the serving path |
| WhatwgUrl.PathListFacts | hacks.js:12 | for a file URL the parsed path is non-empty, has no dot segment, and ends with the file name |
| WhatwgUrl.JoinLastSegment | hacks.js:26 | cutting the last part off a join leaves the join of the others and a `/` |
| WhatwgUrl.WalkClean | hacks.js:12 | without dot segments the parser keeps the raw segments as they are |
| WhatwgUrl.CleanPathname | hacks.js:12 | a URL path without dot segments is its own `pathname` |
| WhatwgUrl.AuthorityColon | hacks.js:12 | in `host:port` with a colon-free host, the authority splits at that colon into the host and the port |
| WhatwgUrl.NonDigitPortRefused | hacks.js:12 | a port holding a character that is not a digit (`h:x`) is refused |
| WhatwgUrl.LargePortRefused | hacks.js:12 | a port above 65535 (`h:99999`) is refused |
| WhatwgUrl.EmptyHostRefused | hacks.js:12 | an empty host (`:80`) is refused |
| WhatwgUrl.NumericLastLabelNotPlain | hacks.js:12 | a host whose last label starts with a digit (`1.2.3.4.5`) is not taken as a domain |
| Text.IndexFrom | hacks.js:48-49 | the first occurrence at or after `from`, and none before it |
| Text.IncludesIff | hacks.js:48 | `includes` holds exactly when some occurrence exists |
| Text.Split | hacks.js:12 | split parts never contain the separator |
| Text.JoinSplit | hacks.js:12 | joining the parts of a split gives the string back |
| Text.SplitJoin | hacks.js:12 | splitting undoes joining when no part holds the separator |
| Text.LastPartIsSuffix | hacks.js:22 | the match of `/[^/]*$/` is a suffix that is the whole string or follows a `/` |
| Text.SubstitutionPlain | hacks.js:49 | a replacement without `$` is inserted verbatim |
| Text.ReplaceFirst | hacks.js:49 | `replace` with a string pattern replaces only the first occurrence, and returns the string unchanged without one |
| Text.IndexOfPrefix | server.js:62 | a prefix is its own first occurrence |
| Text.DecimalString | server.js:62 | a port renders as decimal digits without a leading zero whose value is the port |

## Left out

- I/O and concurrency. The HTTP download (`download.js`), the renderer (`renderer.js`),
  Electron's `session` wiring, the child processes of Java and FFDec, AdmZip and socket
  binding are outside the model. What they answer is a parameter: `FFDec.Tools`, the
  availability probe, the `listens` outcome of the server and the `read` outcome of
  its request handler.
- Awaiting. Each `await` is modelled as a call that completes before the next
  statement. There is no interleaving of the server's callbacks with the sync pass.
- The port race. `isPortAvailable` closes its probe server before `listen` binds the
  port, so another process may take the port in between. The model gives `listen`'s
  outcome as a separate parameter, and a failing `listen` is not retried on the next
  port, matching the code.
- The server's `"error"` handler (server.js:98-100). It only logs.
- `getActivePort` (server.js:120). It returns the `activePort` field of
  `Server.LocalServer` unchanged.
- The persisted `writeFile` (config.js:16). It writes asynchronously and ignores
  errors, so it has no effect on the in-memory state.
- Loading `config.json` and `hacks.json` with `require` (config.js:11, 19). The loaded
  objects are parameters. JSON parsing is not part of this model, and neither are prototype
  keys such as `__proto__`.
- Iteration order. `for...in` visits integer-like keys first. The catalogue and the
  update are given as sequences already in iteration order.
- A hack without `replacements`. `Hack.replacements` is always a sequence, so the
  throw of `for (const replacement of hack.replacements)` (hacks.js:47) on an absent
  field is not modelled.
- Text decoding. A script is read as UTF-8 (hacks.js:44) and written back encoded
  (hacks.js:56); file contents are modelled as strings, so the replacement of
  invalid byte sequences by U+FFFD on a rewrite is not modelled.
- Partial FFDec output. A failed export or import (`exec` at ffdec.js:100 and
  ffdec.js:117) is modelled as leaving the file system unchanged
  (`FFDec.ExportScripts`, `FFDec.ImportScripts`); FFDec may have written part of its
  output before failing. Those writes stay inside the work directory, so what
  `Hacks.Deploy` states outside it is unaffected.
- Console logging. It has no effect on the state.
- Unreachable code. The final `return "java"` of `findJava` (ffdec.js:25) cannot be
  reached, because the bare `java` is always accepted.
- The `try`/`catch` around an `existsSync` call in `findJava`. `existsSync` never
  throws, so the probe is a total function.
- URL shape. URLs are modelled as `http://` or `https://`, a host the WHATWG host
  parser accepts as a domain (labels of letters, digits and `-`, not Punycode, the
  last starting with a letter), an optional port of digits up to 65535, and a path
  without query, fragment, backslash or characters that need percent-encoding.
  `Hacks.Deploy`, `Hacks.Undeploy` and `Hacks.Sync` require their URLs in this shape,
  so the throw of `new URL` (hacks.js:12, hacks.js:87) on a URL it refuses, such as
  `https://h:x/a.swf`, `https://:80/a.swf`, `https://h:99999/a.swf` or
  `https://1.2.3.4.5/a.swf`, is not modelled; IPv4, IPv6 and Punycode hosts are not
  modelled either.
  `/[^/]*$/` at hacks.js:22 would keep a query string that `pathname` drops.
- The working directory. hacks.js reads `server/...` relative to the working
  directory, and server.js reads it relative to `__dirname`. The model takes the two
  to be the same directory.
- Request URLs for the server guard. Requests are taken as `/`-separated segments
  under an application directory `/a1/.../an` of ordinary segments. A non-normalised
  `__dirname` and percent-decoding are not modelled: Node does not decode `req.url`.
- `Hacks.Deploy`: states its effects outside the work directory only for a well-formed
  hack whose work directory does not exist yet. For any other hack it still states the
  skip when the serving file exists. This is weaker than the code, which does not
  check these conditions.
- `Hacks.Deploy`: does not claim the work directory is removed on a throw. The code
  has no `finally`, so a throw in download, export or import leaves it behind.
- `Hacks.Sync`: states convergence only for hacks whose deploy did not hit the no-match
  abort, and only for independent, well-formed hacks with fresh work directory names.
  A throw ends the pass. That is what the code does.
- `Hacks.SyncTwice`: the state between the two passes is a ghost out-parameter, used
  only to state that the second pass changes nothing.
- The `id` / key distinction. The sync pass tests `currentConfig[key]`, and the
  redirect tests `currentConfig[hack.id]`. Both are modelled as written, and no
  relation between a key and its hack's `id` is assumed.
- `crypto.randomUUID()`. It is a parameter, required to be a single segment that is
  neither `server` nor `ffdec`.
- Number formatting. Only natural numbers are rendered (`Text.DecimalString`), for
  the port in the local origin.

## Findings

| source | as written | input that shows it | evidently intended | confidence | as-written member | corrected member |
|---|---|---|---|---|---|---|
| server.js:77 | the traversal guard is `resolvedPath.startsWith(serverDir)`, a string-prefix test | application directory `/app` and request URL `/../server.js`: the path resolves to `/app/server.js`, which starts with `/app/server`, so the file next to the server directory is read and served | serve only files at or below the server directory, segment-wise: equal to it or starting with it followed by `/` | not executed | Server.PrefixGuardAdmitsSibling | Server.HandleContained |
