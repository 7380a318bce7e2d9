/**
 Accepting attachments into the size-limited attachment directory. Files are a map from path to
 size; compression, copying and removal succeed or fail as the surroundings decide.
 */
module AttachmentStore {
  import opened AttachmentNames

  const ATTACHMENT_OK := 0
  const ERROR_ATTACHLIMIT := -1
  const ERROR_NOCONFIG := -2
  const ERROR_NODEVICEID := -3
  const ERROR_FILETOOLARGE := -4
  const ERROR_TOTALOVERLIMIT := -5
  const ERROR_UNDERSCOREREJECTED := -6
  const ERROR_NOFILENAME := -7
  const ERROR_NOFILE := -8
  const ERROR_FILELENGTHLIMIT := -9

  const MAX_ATTACHMENT_LIMIT: nat := 99

  // --- Paths ------------------------------------------------------------------------------------

  // The last place of c in s, or -1.
  function LastIndex(s: string, c: char): (k: int)
    ensures -1 <= k < |s| && (k >= 0 ==> s[k] == c)
    ensures forall j :: k < j < |s| ==> s[j] != c
  {
    if s == "" then -1
    else if s[|s| - 1] == c then |s| - 1
    else LastIndex(s[..|s| - 1], c)
  }

  // The file name and extension of a path; both are empty when it has no slash. A dot before the last
  // slash still counts: the extension then runs across the slash and the file name to the end.
  function NameAndExtension(path: string): (string, string) {
    var slash, dot := LastIndex(path, '/'), LastIndex(path, '.');
    if slash < 0 then ("", "")
    else if dot < 0 then (path[slash + 1..], "")
    else if dot < slash then (path[slash + 1..], path[dot + 1..])
    else (path[slash + 1..dot], path[dot + 1..])
  }

  function CompressedPath(temp: string, file: string, extension: string): string {
    temp + "/" + file + (if extension == "" then "" else "." + extension) + ".gz"
  }

  lemma LastIndexUnique(s: string, c: char, k: int)
    requires -1 <= k < |s| && (k >= 0 ==> s[k] == c) && forall j :: k < j < |s| ==> s[j] != c
    ensures LastIndex(s, c) == k
  {
  }

  lemma TailPlace(temp: string, tail: string, j: int)
    requires '/' !in tail && |temp| < j < |temp + "/" + tail|
    ensures (temp + "/" + tail)[j] != '/'
  {
    assert (temp + "/" + tail)[j] == tail[j - |temp| - 1];
    assert tail[j - |temp| - 1] in tail;
  }

  lemma LastSlash(temp: string, tail: string)
    requires '/' !in tail
    ensures LastIndex(temp + "/" + tail, '/') == |temp|
  {
    hide LastIndex;
    var c := temp + "/" + tail;
    forall j | |temp| < j < |temp + "/" + tail|
      ensures c[j] != '/'
    {
      TailPlace(temp, tail, j);
    }
    assert c[|temp|] == '/';
    LastIndexUnique(c, '/', |temp|);
  }

  lemma EndsInGz(s: string)
    ensures LastIndex(s + ".gz", '.') == |s| && LastIndex(s + ".gz", '/') < |s|
  {
    hide LastIndex;
    var c := s + ".gz";
    assert c[|s|] == '.' && c[|s| + 1] == 'g' && c[|s| + 2] == 'z';
    LastIndexUnique(c, '.', |s|);
  }

  // The path of a file in a directory, taken apart: name and extension, or a name without one; and where the
  // compressed copy of such a file goes.
  lemma PathMeans(dir: string, file: string, extension: string, config: Config)
    requires '/' !in file && '/' !in extension && '.' !in extension
    ensures NameAndExtension(dir + "/" + file + "." + extension) == (file, extension)
    ensures '.' !in dir && '.' !in file ==> NameAndExtension(dir + "/" + file) == (file, "")
    ensures CopyPath(config, dir + "/" + file + "." + extension)
      == (if config.tempPath == "" then "/tmp" else config.tempPath) + "/" + file
         + (if extension == "" then "" else "." + extension) + ".gz"
  {
    hide LastIndex;
    var named := dir + "/" + file + "." + extension;
    assert named == dir + "/" + (file + "." + extension);
    LastSlash(dir, file + "." + extension);
    var dot := |dir| + 1 + |file|;
    assert named[dot] == '.';
    forall j | dot < j < |named| ensures named[j] != '.' {
      assert named[j] == extension[j - dot - 1];
      assert extension[j - dot - 1] in extension;
    }
    LastIndexUnique(named, '.', dot);
    assert named[|dir| + 1..dot] == file && named[dot + 1..] == extension;
    LastSlash(dir, file);
    if '.' !in dir && '.' !in file {
      assert '.' !in dir + "/" + file;
      LastIndexUnique(dir + "/" + file, '.', -1);
    }
  }

  // Without a slash there is neither; a dot before the last slash makes an extension that runs across it.
  lemma OddPathMeans(path: string, dir: string, rest: string, file: string)
    ensures '/' !in path ==> NameAndExtension(path) == ("", "")
    ensures '.' !in rest && '/' !in file && '.' !in file ==>
      NameAndExtension(dir + "." + rest + "/" + file) == (file, rest + "/" + file)
  {
    hide LastIndex;
    if '/' !in path { LastIndexUnique(path, '/', -1); }
    if '.' !in rest && '/' !in file && '.' !in file {
      var odd := dir + "." + rest + "/" + file;
      LastSlash(dir + "." + rest, file);
      assert odd == (dir + "." + rest) + "/" + file;
      forall j | |dir| < j < |odd| ensures odd[j] != '.' {
        if j <= |dir| + |rest| {
          assert odd[j] == rest[j - |dir| - 1] && rest[j - |dir| - 1] in rest;
        } else if j > |dir| + |rest| + 1 {
          assert odd[j] == file[j - |dir| - |rest| - 2] && file[j - |dir| - |rest| - 2] in file;
        }
      }
      LastIndexUnique(odd, '.', |dir|);
      assert odd[|dir| + |rest| + 2..] == file && odd[|dir| + 1..] == rest + "/" + file;
    }
  }

  // Compressing never writes over the source itself.
  lemma CompressedElsewhere(temp: string, path: string)
    requires LastIndex(path, '/') >= 0
    ensures CompressedPath(temp, NameAndExtension(path).0, NameAndExtension(path).1) != path
  {
    hide LastIndex;
    var slash, dot := LastIndex(path, '/'), LastIndex(path, '.');
    var (file, extension) := NameAndExtension(path);
    var name := file + (if extension == "" then "" else "." + extension);
    var c := CompressedPath(temp, file, extension);
    if dot < 0 || slash < dot {
      assert '/' !in name;
      assert c == temp + "/" + (name + ".gz");
      LastSlash(temp, name + ".gz");
    } else {
      assert c == temp + "/" + name + ".gz";
      EndsInGz(temp + "/" + name);
    }
  }

  // A visible file directly inside the directory.
  predicate StoredIn(dir: string, path: string) {
    |path| > |dir| + 1 && path[..|dir|] == dir && path[|dir|] == '/' && path[|dir| + 1] != '.'
      && forall j :: |dir| < j < |path| ==> (path[j] == '/' <==> j == |dir|)
  }

  // Such a path is the directory, a slash and the name of a file that is not hidden.
  lemma StoredInMeans(dir: string, path: string)
    ensures StoredIn(dir, path) <==>
      exists name: string :: path == dir + "/" + name && name != "" && name[0] != '.' && '/' !in name
  {
    if StoredIn(dir, path) {
      var name := path[|dir| + 1..];
      assert path == path[..|dir|] + [path[|dir|]] + name;
      assert path == dir + "/" + name;
    }
    forall name: string | path == dir + "/" + name && name != "" && name[0] != '.' && '/' !in name ensures StoredIn(dir, path) {
      forall j | |dir| < j < |path| ensures path[j] != '/' { TailPlace(dir, name, j); }
    }
  }

  // --- Directory totals -----------------------------------------------------------------------------

  type Files = map<string, nat>

  ghost function SumOf(files: Files, paths: set<string>): nat
    requires paths <= files.Keys
  {
    if paths == {} then 0
    else
      var p :| p in paths;
      files[p] + SumOf(files, paths - {p})
  }

  lemma {:induction false} SumTakesOut(files: Files, paths: set<string>, p: string)
    requires paths <= files.Keys && p in paths
    ensures SumOf(files, paths) == files[p] + SumOf(files, paths - {p})
    decreases paths
  {
    var q :| q in paths && SumOf(files, paths) == files[q] + SumOf(files, paths - {q});
    if q != p {
      SumTakesOut(files, paths - {q}, p);
      SumTakesOut(files, paths - {p}, q);
      assert paths - {q} - {p} == paths - {p} - {q};
    }
  }

  lemma {:induction false} SumSame(files: Files, files': Files, paths: set<string>)
    requires paths <= files.Keys && paths <= files'.Keys
    requires forall p :: p in paths ==> files[p] == files'[p]
    ensures SumOf(files, paths) == SumOf(files', paths)
    decreases paths
  {
    if paths != {} {
      var p :| p in paths;
      SumTakesOut(files, paths, p);
      SumTakesOut(files', paths, p);
      SumSame(files, files', paths - {p});
    }
  }

  function Listed(dir: string, files: Files): set<string> {
    set p | p in files && StoredIn(dir, p)
  }

  ghost function DirTotal(dir: string, files: Files): nat {
    SumOf(files, Listed(dir, files))
  }

  lemma RemoveShrinks(dir: string, files: Files, p: string)
    ensures DirTotal(dir, files - {p}) <= DirTotal(dir, files)
    ensures !StoredIn(dir, p) || p !in files ==> DirTotal(dir, files - {p}) == DirTotal(dir, files)
    ensures p in files && StoredIn(dir, p) ==> DirTotal(dir, files - {p}) == DirTotal(dir, files) - files[p]
  {
    assert Listed(dir, files - {p}) == Listed(dir, files) - {p};
    SumSame(files, files - {p}, Listed(dir, files) - {p});
    if p in Listed(dir, files) {
      SumTakesOut(files, Listed(dir, files), p);
    } else {
      assert Listed(dir, files) - {p} == Listed(dir, files);
    }
  }

  lemma WriteAdds(dir: string, files: Files, p: string, n: nat)
    ensures DirTotal(dir, files[p := n]) <= DirTotal(dir, files) + n
    ensures !StoredIn(dir, p) ==> DirTotal(dir, files[p := n]) == DirTotal(dir, files)
  {
    RemoveShrinks(dir, files, p);
    RemoveShrinks(dir, files[p := n], p);
    assert files[p := n] - {p} == files - {p};
  }

  // --- Files as the surroundings see them ----------------------------------------------------------------

  datatype CopyResult =
    | NotOpened                            // the target could not be opened
    | Opened(written: nat, complete: bool) // it was, and at most this much arrived; complete when both files opened

  datatype CompressResult =
    | Compressed(size: nat)
    | NoTarget             // the target could not be opened, and is as it was
    | NotStarted           // the target has been emptied
    | Broken(size: nat)    // this much was written before the failure; the target is then removed

  /**
   What the surroundings decide during one AcceptAttach: how compression and the copy go, and whether
   the compressed copy and the source can be removed.
   */
  datatype Env = Env(compressed: CompressResult, copy: CopyResult, removesCopy: bool, removesSource: bool)

  datatype Config = Config(attachmentPath: string, tempPath: string, deviceId: string,
                           fileLimit: int, totalLimit: int, deleteAfterAccept: string)

  class Disk {
    var files: Files

    constructor (files: Files)
      ensures this.files == files
    {
      this.files := files;
    }

    function GetSize(path: string): int
      reads this
    {
      if path in files then files[path] else -1
    }

    method Compress(source: string, target: string, result: CompressResult, removes: bool) returns (ok: bool)
      modifies this
      ensures ok == result.Compressed?
      ensures files == match result
        case Compressed(n) => old(files)[target := n]
        case NoTarget => old(files)
        case NotStarted => old(files)[target := 0]
        case Broken(n) => if removes then old(files) - {target} else old(files)[target := n]
    {
      match result {
        case Compressed(n) =>
          files := files[target := n];
        case NoTarget =>
        case NotStarted =>
          files := files[target := 0];
        case Broken(n) =>
          files := files[target := n];
          assert files - {target} == old(files) - {target};
          Remove(target, removes);
      }
      return result.Compressed?;
    }

    method Copy(source: string, target: string, result: CopyResult) returns (ok: bool)
      modifies this
      ensures ok == (result.Opened? && result.complete && source in old(files))
      ensures var size := if source in old(files) then old(files)[source] else 0;
        files == if result.Opened? then old(files)[target := Min(result.written, size)] else old(files)
    {
      if result.NotOpened? {
        return false;
      }
      var size := if source in files then files[source] else 0;
      ok := result.complete && source in files;
      files := files[target := Min(result.written, size)];
    }

    method Remove(path: string, succeeds: bool)
      modifies this
      ensures files == if succeeds then old(files) - {path} else old(files)
    {
      if succeeds { files := files - {path}; }
    }

    // GetExistingAttachmentSize: the listing is walked in whatever order the directory gives.
    method TotalSize(dir: string) returns (total: nat)
      ensures total == DirTotal(dir, files)
    {
      total := 0;
      var rest := Listed(dir, files);
      while rest != {}
        invariant rest <= files.Keys
        invariant total + SumOf(files, rest) == DirTotal(dir, files)
        decreases rest
      {
        var p :| p in rest;
        SumTakesOut(files, rest, p);
        total := total + files[p];
        rest := rest - {p};
      }
    }
  }

  // --- The event -----------------------------------------------------------------------------------------

  datatype AttachRequest = AttachRequest(fileType: string, path: string, compress: bool, delete: bool)

  function Suffix(code: int): string {
    if code == ERROR_ATTACHLIMIT then "_ATTACHLIMIT"
    else if code == ERROR_NOCONFIG then "_NOCONFIG"
    else if code == ERROR_NODEVICEID then "_NODEVICEID"
    else if code == ERROR_FILETOOLARGE then "_FILETOOLARGE"
    else if code == ERROR_TOTALOVERLIMIT then "_TOTALOVERLIMIT"
    else if code == ERROR_UNDERSCOREREJECTED then "_UNDERSCOREREJECTED"
    else if code == ERROR_NOFILENAME then "_NOFILENAME"
    else if code == ERROR_NOFILE then "_NOFILE"
    else if code == ERROR_FILELENGTHLIMIT then "_FILELENGTHLIMIT"
    else ""
  }

  function TempPath(config: Config): string {
    if config.tempPath == "" then "/tmp" else config.tempPath
  }

  // Where the compressed copy of a source goes.
  function CopyPath(config: Config, source: string): string {
    CompressedPath(TempPath(config), NameAndExtension(source).0, NameAndExtension(source).1)
  }

  // The compressed copy is outside the attachment directory, or it can be removed again.
  predicate LeavesNoCopy(dir: string, config: Config, source: string, env: Env) {
    env.removesCopy || !StoredIn(dir, CopyPath(config, source))
  }

  // What a refused request leaves on disk, once compression has been tried.
  function AfterRefusal(before: Files, copyPath: string, compress: bool, env: Env): Files {
    if !compress || env.compressed.NoTarget? then before
    else if env.compressed.NotStarted? then before[copyPath := 0]
    else if env.removesCopy then before - {copyPath}
    else before[copyPath := env.compressed.size]
  }

  // The compressed copy is kept for storing: it is no larger than the source.
  predicate KeepsCopy(before: Files, source: string, compress: bool, env: Env)
    requires source in before
  {
    compress && env.compressed.Compressed? && env.compressed.size <= before[source]
  }

  // The size a request brings to the limits.
  function NewSize(before: Files, source: string, compress: bool, env: Env): nat
    requires source in before
  {
    if KeepsCopy(before, source, compress, env) then env.compressed.size else before[source]
  }

  // The files when the limits are looked at.
  function Made(before: Files, copyPath: string, source: string, compress: bool, env: Env): Files
    requires source in before
  {
    if KeepsCopy(before, source, compress, env) then before[copyPath := env.compressed.size]
    else AfterRefusal(before, copyPath, compress, env)
  }

  // If the compressed copy stays in the directory, it still fits beside the other files.
  ghost predicate CopyFits(dir: string, before: Files, copyPath: string, compress: bool, env: Env, bound: int) {
    compress && !env.removesCopy && (env.compressed.Compressed? || env.compressed.Broken?) && StoredIn(dir, copyPath) ==>
      DirTotal(dir, before - {copyPath}) + env.compressed.size <= bound
  }

  // The request never gets as far as compressing, or its compressed copy fits.
  ghost predicate RequestFits(dir: string, before: Files, r: AttachRequest, config: Config, env: Env, bound: int) {
    r.path !in before || dir == "" || NameAndExtension(r.path).0 == ""
      || CopyFits(dir, before, CopyPath(config, r.path), r.compress, env, bound)
  }

  // Requests refused before compression is tried.
  predicate RefusedAtOnce(code: int) {
    code == ERROR_NOFILE || code == ERROR_NOCONFIG || code == ERROR_NOFILENAME
  }

  function Max(a: int, b: int): int {
    if a < b then b else a
  }

  // Only these paths may have changed.
  ghost predicate SameElsewhere(before: Files, after: Files, except: set<string>) {
    forall p :: p in before || p in after ==> p in except || (p in before && p in after && before[p] == after[p])
  }

  // The sixth field of a name is the number k.
  predicate CountedName(name: string, k: nat) {
    |Fields(name)| > 5 && Fields(name)[5] == Decimal(k)
  }

  class CIgniteEvent {
    const eventId: string
    const time: string  // the timestamp, as printed
    var count: nat
    var attachments: seq<string>
    var path: string
    var deviceId: string
    ghost var accepted: seq<string>  // the names stored for this event, in order

    ghost predicate Valid()
      reads this
    {
      |accepted| == count <= MAX_ATTACHMENT_LIMIT + 1
    }

    ghost predicate NamesCounted()
      reads this
    {
      forall k :: 0 <= k < |accepted| ==> CountedName(accepted[k], k)
    }

    constructor (eventId: string, time: string)
      ensures Valid() && NamesCounted() && count == 0 && attachments == [] && path == ""
      ensures this.eventId == eventId && this.time == time
    {
      this.eventId, this.time := eventId, time;
      count, attachments, path, deviceId, accepted := 0, [], "", "", [];
    }

    // The attachment path is looked up once and then kept.
    function Dir(config: Config): string
      reads this
    {
      if path == "" then config.attachmentPath else path
    }

    method ValidateOutFileName(newSize: int, existing: int, config: Config, fileType: string, outName: string)
      returns (code: int, outName': string)
      ensures code == ATTACHMENT_OK <==>
        count <= MAX_ATTACHMENT_LIMIT && path != "" && deviceId != "" && newSize <= config.fileLimit
        && newSize + existing <= config.totalLimit && '_' !in fileType && '_' !in eventId
      ensures outName' == outName + Suffix(code) && ERROR_UNDERSCOREREJECTED <= code <= ATTACHMENT_OK
      ensures code == ATTACHMENT_OK ==> outName' == outName
      ensures code == ERROR_ATTACHLIMIT <==> count > MAX_ATTACHMENT_LIMIT
      ensures code == ERROR_NOCONFIG ==> path == ""
      ensures code == ERROR_NODEVICEID ==> deviceId == ""
      ensures code == ERROR_FILETOOLARGE ==> newSize > config.fileLimit
      ensures code == ERROR_TOTALOVERLIMIT ==> newSize <= config.fileLimit && newSize + existing > config.totalLimit
      ensures code == ERROR_UNDERSCOREREJECTED ==> '_' in fileType || '_' in eventId
      ensures code < ERROR_NOCONFIG ==> path != ""
      ensures code < ERROR_NODEVICEID ==> deviceId != ""
      ensures code < ERROR_TOTALOVERLIMIT ==> newSize <= config.fileLimit && newSize + existing <= config.totalLimit
      ensures outName' == outName +
        if code == -1 then "_ATTACHLIMIT" else if code == -2 then "_NOCONFIG" else if code == -3 then "_NODEVICEID"
        else if code == -4 then "_FILETOOLARGE" else if code == -5 then "_TOTALOVERLIMIT"
        else if code == -6 then "_UNDERSCOREREJECTED" else ""
    {
      outName', code := outName, ATTACHMENT_OK;
      if count > MAX_ATTACHMENT_LIMIT {
        outName', code := outName' + "_ATTACHLIMIT", ERROR_ATTACHLIMIT;
      } else if path == "" {
        outName', code := outName' + "_NOCONFIG", ERROR_NOCONFIG;
      } else if deviceId == "" {
        outName', code := outName' + "_NODEVICEID", ERROR_NODEVICEID;
      } else if newSize > config.fileLimit {
        outName', code := outName' + "_FILETOOLARGE", ERROR_FILETOOLARGE;
      } else if newSize + existing > config.totalLimit {
        outName', code := outName' + "_TOTALOVERLIMIT", ERROR_TOTALOVERLIMIT;
      } else if '_' in fileType || '_' in eventId {
        outName', code := outName' + "_UNDERSCOREREJECTED", ERROR_UNDERSCOREREJECTED;
      }
    }

    // Keeps the compressed copy only when it is no larger than the source.
    method CompressFile(disk: Disk, compress: bool, source: string, target: string, env: Env)
      returns (isCompressed: bool, newSize: int)
      requires source in disk.files && source != target
      modifies disk
      ensures 0 <= newSize <= old(disk.files)[source]
      ensures isCompressed ==> compress && disk.files == old(disk.files)[target := newSize]
      ensures !isCompressed ==> newSize == old(disk.files)[source]
      ensures source in disk.files && disk.files[source] == old(disk.files)[source]
      ensures SameElsewhere(old(disk.files), disk.files, {target})
      ensures isCompressed == (compress && env.compressed.Compressed? && env.compressed.size <= old(disk.files)[source])
      ensures newSize == if isCompressed then env.compressed.size else old(disk.files)[source]
      ensures isCompressed == KeepsCopy(old(disk.files), source, compress, env)
      ensures newSize == NewSize(old(disk.files), source, compress, env)
      ensures disk.files == Made(old(disk.files), target, source, compress, env)
      ensures isCompressed ==> env.compressed == Compressed(newSize)
      ensures !isCompressed ==> disk.files == AfterRefusal(old(disk.files), target, compress, env)
    {
      var ok := false;
      if compress {
        ok := disk.Compress(source, target, env.compressed, env.removesCopy);
      }
      isCompressed := false;
      if ok {
        newSize := disk.GetSize(target);
        if newSize > disk.GetSize(source) {
          newSize := disk.GetSize(source);
          assert old(disk.files)[target := env.compressed.size] - {target} == old(disk.files) - {target};
          disk.Remove(target, env.removesCopy);
        } else {
          isCompressed := true;
        }
      } else {
        newSize := disk.GetSize(source);
      }
    }

    // Stores the file under a name that fits; otherwise only the reported name and the code change.
    method FinalizeOutFileName(disk: Disk, p: Parts, outName: string, isCompressed: bool, deleteSetting: string,
                               compressedPath: string, dir: string, delete: bool, source: string, env: Env)
      returns (outName': string, code: int)
      requires Valid() && count <= MAX_ATTACHMENT_LIMIT
      requires (if isCompressed then compressedPath else source) in disk.files
      modifies disk, this`count, this`accepted
      ensures Valid()
      ensures code == if Fits(Final(p)) then ATTACHMENT_OK else ERROR_FILELENGTHLIMIT
      ensures code == ATTACHMENT_OK ==> outName' == Stored(p, isCompressed)
      ensures code == ATTACHMENT_OK ==> count == old(count) + 1 && accepted == old(accepted) + [outName']
      ensures code != ATTACHMENT_OK ==> outName' == outName + Suffix(code) && disk.files == old(disk.files)
      ensures code != ATTACHMENT_OK ==> count == old(count) && accepted == old(accepted)
      ensures code == ATTACHMENT_OK ==> FinalFiles(old(disk.files), disk.files,
        dir + "/" + outName', if isCompressed then compressedPath else source, deleteSetting == "yes" && delete, source, env)
    {
      var name := BuildName(p);
      JoinedHasLength(Final(p));
      if |name| <= MAX_FINAL_LENGTH {
        if isCompressed {
          name := name + ".gz";
        }
        var ok := disk.Copy(if isCompressed then compressedPath else source, dir + "/" + name, env.copy);
        outName', code := name, ATTACHMENT_OK;
        count := count + 1;
        accepted := accepted + [name];
        if deleteSetting != "" {
          if deleteSetting == "yes" {
            if delete && ok {
              disk.Remove(source, env.removesSource);
            }
          }
        }
      } else {
        outName', code := outName + "_FILELENGTHLIMIT", ERROR_FILELENGTHLIMIT;
      }
    }

    // The parts of the name of attachment number n.
    function PartsFor(r: AttachRequest, config: Config, n: nat): Parts {
      Parts(config.deviceId, r.fileType, eventId, time, Decimal(n), NameAndExtension(r.path).0, NameAndExtension(r.path).1)
    }

    // Type and event id have no underscore, and some stage makes the name fit.
    predicate Nameable(r: AttachRequest, config: Config, n: nat) {
      '_' !in r.fileType && '_' !in eventId && Fits(Final(PartsFor(r, config, n)))
    }

    // What it takes to be accepted, for a file with a name: every limit kept and a name that fits.
    ghost predicate Acceptable(files: Files, r: AttachRequest, config: Config, env: Env)
      requires r.path in files
      reads this
    {
      var newSize := NewSize(files, r.path, r.compress, env);
      && count <= MAX_ATTACHMENT_LIMIT && config.deviceId != "" && newSize <= config.fileLimit
      && newSize + DirTotal(Dir(config), Made(files, CopyPath(config, r.path), r.path, r.compress, env)) <= config.totalLimit
      && Nameable(r, config, count)
    }

    // Compresses, checks the limits and stores: the part of AcceptAttach for a file with a name.
    method StoreFile(disk: Disk, r: AttachRequest, config: Config, env: Env)
      returns (code: int, outName: string, ghost stored: nat, ghost compressed: bool)
      requires Valid() && r.path in disk.files && NameAndExtension(r.path).0 != ""
      requires path != "" && deviceId == config.deviceId
      modifies disk, this`count, this`accepted
      ensures Valid() && ERROR_FILELENGTHLIMIT <= code <= ATTACHMENT_OK && !RefusedAtOnce(code)
      ensures code == ATTACHMENT_OK <==> old(Acceptable(disk.files, r, config, env))
      ensures code == ATTACHMENT_OK ==> DirTotal(path, disk.files) <= config.totalLimit
      ensures code != ATTACHMENT_OK ==>
        disk.files == AfterRefusal(old(disk.files), CopyPath(config, r.path), r.compress, env)
      ensures code != ATTACHMENT_OK ==> count == old(count) && accepted == old(accepted) && outName == r.path + Suffix(code)
      ensures code == ATTACHMENT_OK ==> old(count) <= MAX_ATTACHMENT_LIMIT && count == old(count) + 1
      ensures code == ATTACHMENT_OK ==> stored <= old(disk.files)[r.path] && stored <= config.fileLimit
      ensures code == ATTACHMENT_OK ==> stored <= config.totalLimit
      ensures code == ATTACHMENT_OK ==>
        if compressed then env.compressed == Compressed(stored) else stored == old(disk.files)[r.path]
      ensures code == ATTACHMENT_OK ==> Nameable(r, config, old(count)) && (compressed ==> r.compress)
      ensures code == ATTACHMENT_OK ==> outName == Stored(PartsFor(r, config, old(count)), compressed)
      ensures code == ATTACHMENT_OK ==> accepted == old(accepted) + [outName]
      ensures code == ATTACHMENT_OK ==>
        compressed == (r.compress && env.compressed.Compressed? && env.compressed.size <= old(disk.files)[r.path])
      ensures code == ATTACHMENT_OK && compressed && env.removesCopy ==> CopyPath(config, r.path) !in disk.files
      ensures Touched(old(disk.files), disk.files, code, path + "/" + outName, stored, config, r, env)
    {
      hide Final; hide Joined; hide CompressedPath; hide NameAndExtension; hide DirTotal; hide StoredIn;
      hide Suffix; hide Decimal; hide Landed; hide Touched; hide SameElsewhere; hide AfterRefusal;
      ghost var dir, before := path, disk.files;
      var (file, extension) := NameAndExtension(r.path);
      var copyPath := CompressedPath(TempPath(config), file, extension);
      assert copyPath == CopyPath(config, r.path);
      NamedHasSlash(r.path);
      CompressedElsewhere(TempPath(config), r.path);
      var newSize;
      compressed, newSize := false, 0;
      var isCompressed;
      isCompressed, newSize := CompressFile(disk, r.compress, r.path, copyPath, env);
      compressed, stored := isCompressed, newSize;
      ghost var made := disk.files;
      var existing := disk.TotalSize(path);
      code, outName := ValidateOutFileName(newSize, existing, config, r.fileType, r.path);
      if code == ATTACHMENT_OK {
        var p := PartsFor(r, config, count);
        code, outName := Finalize(disk, p, outName, isCompressed, config, copyPath, r, env, newSize);
      }
      ghost var done := disk.files;
      if isCompressed {
        disk.Remove(copyPath, env.removesCopy);
      }
      TouchedInSteps(before, made, done, disk.files, code, path + "/" + outName, stored, config, r, env);
      CopyRemoved(dir, before, made, done, disk.files, copyPath, newSize, isCompressed, r.compress, code == ATTACHMENT_OK, env);
    }

    // FinalizeOutFileName seen from its caller: the directory grows by at most the size that was checked.
    method Finalize(disk: Disk, p: Parts, outName: string, isCompressed: bool, config: Config, copyPath: string,
                    r: AttachRequest, env: Env, newSize: nat)
      returns (code: int, outName': string)
      requires Valid() && count <= MAX_ATTACHMENT_LIMIT
      requires var from := if isCompressed then copyPath else r.path; from in disk.files && disk.files[from] == newSize
      modifies disk, this`count, this`accepted
      ensures Valid()
      ensures code == if Fits(Final(p)) then ATTACHMENT_OK else ERROR_FILELENGTHLIMIT
      ensures code == ATTACHMENT_OK ==> outName' == Stored(p, isCompressed)
      ensures code == ATTACHMENT_OK ==> count == old(count) + 1 && accepted == old(accepted) + [outName']
      ensures code == ATTACHMENT_OK ==> DirTotal(path, disk.files) <= DirTotal(path, old(disk.files)) + newSize
      ensures code == ATTACHMENT_OK ==> Landed(old(disk.files), disk.files, path + "/" + outName', newSize, config, r, env)
      ensures code != ATTACHMENT_OK ==> outName' == outName + Suffix(code) && disk.files == old(disk.files)
      ensures code != ATTACHMENT_OK ==> count == old(count) && accepted == old(accepted)
    {
      ghost var before, from := disk.files, if isCompressed then copyPath else r.path;
      outName', code := FinalizeOutFileName(disk, p, outName, isCompressed, config.deleteAfterAccept, copyPath, path,
                                            r.delete, r.path, env);
      if code == ATTACHMENT_OK {
        FinalFilesTotal(path, before, disk.files, path + "/" + outName', from,
                        config.deleteAfterAccept == "yes" && r.delete, r.path, env);
      }
    }

    /**
     Takes one attachment. It is accepted exactly when it is Acceptable; then the directory ends within the
     configured total, and the file is within the per-file limit and its source. For any bound that the directory
     is within and that the total limit is within, it stays so exactly when the request fits it.
     */
    method AcceptAttach(disk: Disk, r: AttachRequest, config: Config, env: Env)
      returns (code: int, ghost name: string, ghost stored: nat, ghost compressed: bool)
      requires Valid()
      modifies disk, this
      ensures Valid() && Dir(config) == old(Dir(config)) && ERROR_FILELENGTHLIMIT <= code <= ATTACHMENT_OK
      ensures code == ATTACHMENT_OK ==> DirTotal(Dir(config), disk.files) <= config.totalLimit
      ensures RefusedAtOnce(code) ==> disk.files == old(disk.files)
      ensures code != ATTACHMENT_OK && !RefusedAtOnce(code) ==>
        disk.files == AfterRefusal(old(disk.files), CopyPath(config, r.path), r.compress, env)
      ensures code == ATTACHMENT_OK <==> (r.path in old(disk.files) && old(Dir(config)) != ""
              && NameAndExtension(r.path).0 != "" && old(Acceptable(disk.files, r, config, env)))
      ensures forall bound :: bound >= Max(DirTotal(Dir(config), old(disk.files)), config.totalLimit) ==>
        (DirTotal(Dir(config), disk.files) <= bound <==> RequestFits(old(Dir(config)), old(disk.files), r, config, env, bound))
      ensures Touched(old(disk.files), disk.files, code, Dir(config) + "/" + name, stored, config, r, env)
      ensures code == ERROR_NOFILE <==> r.path !in old(disk.files)
      ensures code == ERROR_NOCONFIG <==> r.path in old(disk.files) && Dir(config) == ""
      ensures code == ERROR_NOFILENAME <==>
        r.path in old(disk.files) && Dir(config) != "" && NameAndExtension(r.path).0 == ""
      ensures attachments == if code == ERROR_NOCONFIG then old(attachments) else old(attachments) + [name]
      ensures code != ATTACHMENT_OK ==> name == r.path + Suffix(code) && count == old(count) && accepted == old(accepted)
      ensures code == ATTACHMENT_OK ==> count == old(count) + 1 <= MAX_ATTACHMENT_LIMIT + 1 && accepted == old(accepted) + [name]
      ensures code == ATTACHMENT_OK ==>
        r.path in old(disk.files) && stored <= old(disk.files)[r.path] && stored <= config.fileLimit
      ensures code == ATTACHMENT_OK ==> stored <= config.totalLimit
      ensures code == ATTACHMENT_OK ==>
        if compressed then env.compressed == Compressed(stored) else stored == old(disk.files)[r.path]
      ensures code == ATTACHMENT_OK ==> Nameable(r, config, old(count)) && (compressed ==> r.compress)
      ensures code == ATTACHMENT_OK ==> name == Stored(PartsFor(r, config, old(count)), compressed)
      // The name, the copy and the source, from the request itself.
      ensures code == ATTACHMENT_OK ==>
        IsStoredName(name, config.deviceId, r.fileType, eventId, time, old(count),
                     NameAndExtension(r.path).0, NameAndExtension(r.path).1, compressed)
      ensures code == ATTACHMENT_OK ==>
        compressed == (r.compress && env.compressed.Compressed? && env.compressed.size <= old(disk.files)[r.path])
      ensures code == ATTACHMENT_OK && Dir(config) + "/" + name !in {r.path, CopyPath(config, r.path)} && env.copy.Opened? ==>
        Dir(config) + "/" + name in disk.files && disk.files[Dir(config) + "/" + name] == Min(env.copy.written, stored)
      ensures code == ATTACHMENT_OK && Dir(config) + "/" + name != r.path ==>
        (r.path !in disk.files <==>
           (config.deleteAfterAccept == "yes" && r.delete && env.copy.Opened? && env.copy.complete && env.removesSource))
      ensures code == ATTACHMENT_OK && compressed && env.removesCopy ==> CopyPath(config, r.path) !in disk.files
      ensures code == ERROR_NOFILE ==> name == r.path + "_NOFILE"
      ensures code == ERROR_NOFILENAME ==> name == r.path + "_NOFILENAME"
      ensures code == ERROR_FILELENGTHLIMIT ==> name == r.path + "_FILELENGTHLIMIT"
    {
      hide IsStoredName; hide Stored; hide DirTotal; hide StoredIn; hide NameAndExtension; hide AfterRefusal; hide CopyFits; hide CopyPath;
      hide Made; hide NewSize;
      ghost var before, copyPath := disk.files, CopyPath(config, r.path);
      stored, compressed := 0, false;
      if r.path !in disk.files {
        name := r.path + "_NOFILE";
        attachments := attachments + [r.path + "_NOFILE"];
        return ERROR_NOFILE, name, 0, false;
      }
      if path == "" {
        path := config.attachmentPath;
      }
      if path == "" {
        return ERROR_NOCONFIG, r.path + "_NOCONFIG", 0, false;
      }
      deviceId := config.deviceId;
      if NameAndExtension(r.path).0 == "" {
        name := r.path + "_NOFILENAME";
        attachments := attachments + [r.path + "_NOFILENAME"];
        return ERROR_NOFILENAME, name, 0, false;
      }
      hide Touched;
      var outName;
      code, outName, stored, compressed := StoreFile(disk, r, config, env);
      attachments := attachments + [outName];
      name := outName;
      if code == ATTACHMENT_OK {
        StoredMeans(config.deviceId, r.fileType, eventId, time, old(count), NameAndExtension(r.path).0,
                    NameAndExtension(r.path).1, compressed);
      }
      forall bound | bound >= Max(DirTotal(path, before), config.totalLimit)
        ensures DirTotal(path, disk.files) <= bound <==> CopyFits(path, before, copyPath, r.compress, env, bound)
      {
        RefusalBound(path, before, copyPath, r.compress, env, bound);
        AcceptedFits(path, before, copyPath, r.path, r.compress, env, bound);
      }
    }

    /**
     Every name stored for the event carries its own number, so no two are the same. The directory stays within
     the larger of its starting total and the configured total, after every request, exactly when each request in
     its turn fits; it does when none can leave a compressed copy there. `trail` holds the files before each
     request and after the last.
     */
    method ProcessAttachment(disk: Disk, requests: seq<AttachRequest>, config: Config, envs: nat -> Env)
      returns (codes: seq<int>, ghost trail: seq<Files>)
      requires Valid()
      modifies disk, this
      ensures Valid() && count <= 100 && |codes| == |requests|
      ensures |trail| == |requests| + 1 && trail[0] == old(disk.files) && trail[|requests|] == disk.files
      ensures var bound := Max(DirTotal(old(Dir(config)), old(disk.files)), config.totalLimit);
        AllWithin(old(Dir(config)), trail, bound) <==> AllFit(old(Dir(config)), trail, requests, config, envs, bound)
      ensures (forall k :: 0 <= k < |requests| ==> LeavesNoCopy(old(Dir(config)), config, requests[k].path, envs(k))) ==>
        AllWithin(old(Dir(config)), trail, Max(DirTotal(old(Dir(config)), old(disk.files)), config.totalLimit))
      ensures old(NamesCounted()) && '_' !in config.deviceId && '_' !in time ==>
        NamesCounted() && forall i, j :: 0 <= i < j < |accepted| ==> accepted[i] != accepted[j]
      ensures old(accepted) <= accepted
    {
      hide DirTotal; hide Touched; hide StoredIn; hide Final; hide Joined; hide Stored; hide Fields; hide Decimal; hide Suffix;
      hide AfterRefusal; hide CopyPath; hide NameAndExtension; hide RequestFits; hide Acceptable;
      hide AllFit; hide AllWithin; hide LeavesNoCopy;
      ghost var dir, bound := Dir(config), Max(DirTotal(Dir(config), disk.files), config.totalLimit);
      codes, trail := [], [disk.files];
      AllStart(dir, disk.files, config, envs, bound);
      for i := 0 to |requests|
        invariant Valid() && |codes| == i && Dir(config) == dir && old(accepted) <= accepted
        invariant |trail| == i + 1 && trail[0] == old(disk.files) && trail[i] == disk.files
        invariant AllWithin(dir, trail, bound) <==> AllFit(dir, trail, requests[..i], config, envs, bound)
        invariant old(NamesCounted()) && '_' !in config.deviceId && '_' !in time ==> NamesCounted()
      {
        ghost var n, before := count, trail;
        var code, name, stored, compressed := AcceptAttach(disk, requests[i], config, envs(i));
        if code == ATTACHMENT_OK && '_' !in config.deviceId && '_' !in time {
          DecimalIsNotEmpty(n);
          SixthFieldIsCount(PartsFor(requests[i], config, n), compressed);
        }
        codes, trail := codes + [code], trail + [disk.files];
        assert requests[..i + 1][..i] == requests[..i];
        AllNext(dir, before, disk.files, requests[..i + 1], config, envs, bound);
      }
      assert requests[..|requests|] == requests;
      NoCopyFits(dir, trail, requests, config, envs, bound);
      if NamesCounted() { CountedNamesDiffer(accepted); }
    }
  }

  lemma CountedNamesDiffer(names: seq<string>)
    requires forall k :: 0 <= k < |names| ==> CountedName(names[k], k)
    ensures forall i, j :: 0 <= i < j < |names| ==> names[i] != names[j]
  {
    hide Fields; hide Decimal;
    forall i, j | 0 <= i < j < |names| ensures names[i] != names[j] {
      if Decimal(i) == Decimal(j) { DecimalIsInjective(i, j); }
    }
  }

  // --- Runs of requests -----------------------------------------------------------------------------------

  ghost predicate AllWithin(dir: string, trail: seq<Files>, bound: int) {
    forall k :: 0 <= k < |trail| ==> DirTotal(dir, trail[k]) <= bound
  }

  ghost predicate AllFit(dir: string, trail: seq<Files>, requests: seq<AttachRequest>, config: Config, envs: nat -> Env,
                         bound: int)
    requires |trail| == |requests| + 1
  {
    forall k :: 0 <= k < |requests| ==> RequestFits(dir, trail[k], requests[k], config, envs(k), bound)
  }

  lemma AllStart(dir: string, files: Files, config: Config, envs: nat -> Env, bound: int)
    requires DirTotal(dir, files) <= bound
    ensures AllWithin(dir, [files], bound) && AllFit(dir, [files], [], config, envs, bound)
  {
  }

  // One more request: while everything was within the bound, it stays so exactly when the request fits.
  lemma AllNext(dir: string, trail: seq<Files>, after: Files, requests: seq<AttachRequest>, config: Config, envs: nat -> Env,
                bound: int)
    requires |trail| == |requests| > 0
    requires var n := |requests| - 1;
      && (AllWithin(dir, trail, bound) <==> AllFit(dir, trail, requests[..n], config, envs, bound))
      && (DirTotal(dir, trail[n]) <= bound ==>
            (DirTotal(dir, after) <= bound <==> RequestFits(dir, trail[n], requests[n], config, envs(n), bound)))
    ensures AllWithin(dir, trail + [after], bound) <==> AllFit(dir, trail + [after], requests, config, envs, bound)
  {
    hide DirTotal; hide RequestFits;
    var n, longer := |requests| - 1, trail + [after];
    assert forall k :: 0 <= k <= n ==> longer[k] == trail[k];
    assert AllWithin(dir, longer, bound) <==> AllWithin(dir, trail, bound) && DirTotal(dir, longer[n + 1]) <= bound;
    assert AllFit(dir, longer, requests, config, envs, bound)
      <==> AllFit(dir, trail, requests[..n], config, envs, bound) && RequestFits(dir, longer[n], requests[n], config, envs(n), bound);
  }

  lemma NoCopyFits(dir: string, trail: seq<Files>, requests: seq<AttachRequest>, config: Config, envs: nat -> Env, bound: int)
    requires |trail| == |requests| + 1
    ensures (forall k :: 0 <= k < |requests| ==> LeavesNoCopy(dir, config, requests[k].path, envs(k))) ==>
      AllFit(dir, trail, requests, config, envs, bound)
  {
    hide DirTotal; hide CopyPath; hide StoredIn;
  }

  // At the end of a request the compressed copy goes, if it can.
  lemma CopyRemoved(dir: string, before: Files, made: Files, done: Files, after: Files, copyPath: string, newSize: nat,
                    isCompressed: bool, compress: bool, ok: bool, env: Env)
    requires if isCompressed then made == before[copyPath := newSize] && compress && env.compressed == Compressed(newSize)
             else made == AfterRefusal(before, copyPath, compress, env)
    requires ok || done == made
    requires after == if isCompressed && env.removesCopy then done - {copyPath} else done
    ensures DirTotal(dir, after) <= DirTotal(dir, done)
    ensures !ok ==> after == AfterRefusal(before, copyPath, compress, env)
  {
    RemoveShrinks(dir, done, copyPath);
    assert before[copyPath := newSize] - {copyPath} == before - {copyPath};
  }

  // What a refused request leaves stays within a bound exactly when the copy fits, for every directory.
  lemma RefusalBound(dir: string, before: Files, copyPath: string, compress: bool, env: Env, bound: int)
    requires DirTotal(dir, before) <= bound
    ensures DirTotal(dir, AfterRefusal(before, copyPath, compress, env)) <= bound
      <==> CopyFits(dir, before, copyPath, compress, env, bound)
  {
    hide DirTotal; hide StoredIn;
    RemoveShrinks(dir, before, copyPath);
    WriteAdds(dir, before, copyPath, 0);
    if env.compressed.Compressed? || env.compressed.Broken? { CopyAdds(dir, before, copyPath, env.compressed.size); }
  }

  lemma CopyAdds(dir: string, before: Files, copyPath: string, n: nat)
    ensures DirTotal(dir, before[copyPath := n])
      == if StoredIn(dir, copyPath) then DirTotal(dir, before - {copyPath}) + n else DirTotal(dir, before)
  {
    hide DirTotal; hide StoredIn;
    WriteAdds(dir, before, copyPath, n);
    RemoveShrinks(dir, before[copyPath := n], copyPath);
    assert before[copyPath := n] - {copyPath} == before - {copyPath};
  }

  // A kept copy is among the files that the limit counts, so an accepted request always fits.
  lemma AcceptedFits(dir: string, before: Files, copyPath: string, source: string, compress: bool, env: Env, bound: int)
    requires source in before
    ensures DirTotal(dir, Made(before, copyPath, source, compress, env)) <= bound ==>
      CopyFits(dir, before, copyPath, compress, env, bound)
  {
    hide DirTotal; hide StoredIn;
    if env.compressed.Compressed? || env.compressed.Broken? { CopyAdds(dir, before, copyPath, env.compressed.size); }
  }

  /**
   A request that breaks the bound: compression writes its copy into the attachment directory, the limit
   refuses the file, and the copy cannot be removed.
   */
  method RefusedCopyStays(n: nat) returns (code: int, ghost before: nat, ghost after: nat)
    requires n > 0
    ensures code != ATTACHMENT_OK && before == 0 && after == n
  {
    hide NameAndExtension; hide CompressedPath; hide DirTotal;
    var disk := new Disk(map["/s/f" := n]);
    var event := new CIgniteEvent("e", "1");
    var config := Config("/d", "/d", "device", n, 0, "no");
    var env := Env(Compressed(n), NotOpened, false, false);
    before := DirTotal("/d", disk.files);
    SampleTotals(n);
    ghost var name, stored, compressed;
    code, name, stored, compressed := event.AcceptAttach(disk, AttachRequest("t", "/s/f", true, false), config, env);
    after := DirTotal("/d", disk.files);
  }

  lemma SampleTotals(n: nat)
    ensures NameAndExtension("/s/f") == ("f", "") && CompressedPath("/d", "f", "") == "/d/f.gz"
    ensures DirTotal("/d", map["/s/f" := n]) == 0 && DirTotal("/d", map["/s/f" := n]["/d/f.gz" := n]) == n
  {
    LastIndexUnique("/s/f", '/', 2);
    LastIndexUnique("/s/f", '.', -1);
    var files := map["/s/f" := n];
    assert Listed("/d", files) == {};
    RemoveShrinks("/d", files["/d/f.gz" := n], "/d/f.gz");
    assert files["/d/f.gz" := n] - {"/d/f.gz"} == files;
    assert StoredIn("/d", "/d/f.gz");
  }

  lemma NamedHasSlash(path: string)
    requires NameAndExtension(path).0 != ""
    ensures LastIndex(path, '/') >= 0
  {
  }

  predicate SourceGoes(config: Config, r: AttachRequest, env: Env) {
    config.deleteAfterAccept == "yes" && r.delete && env.copy.Opened? && env.copy.complete && env.removesSource
  }

  // Nothing but the target and, when it may go, the source has changed; the target is within the given size.
  ghost predicate Landed(before: Files, after: Files, target: string, size: nat, config: Config, r: AttachRequest, env: Env) {
    && SameElsewhere(before, after, {target, r.path})
    && (env.copy.Opened? && target in after ==> after[target] <= size)
    && (env.copy.Opened? && target != r.path ==> target in after && after[target] == Min(env.copy.written, size))
    && (r.path in before && r.path !in after ==> SourceGoes(config, r, env))
    && (r.path in before && target != r.path ==> (r.path !in after <==> SourceGoes(config, r, env)))
  }

  // What one request may do to the disk: a refused one touches the compressed copy at most, an accepted one
  // also its target, and the source only disappears after a complete copy and on request.
  ghost predicate Touched(before: Files, after: Files, code: int, target: string, size: nat, config: Config,
                          r: AttachRequest, env: Env) {
    && SameElsewhere(before, after, {CopyPath(config, r.path)} + if code == ATTACHMENT_OK then {target, r.path} else {})
    && (code == ATTACHMENT_OK && env.copy.Opened? && target in after ==> after[target] <= size)
    && (code == ATTACHMENT_OK && env.copy.Opened? && target !in {r.path, CopyPath(config, r.path)} ==>
          target in after && after[target] == Min(env.copy.written, size))
    && (r.path in before && r.path !in after ==> code == ATTACHMENT_OK && SourceGoes(config, r, env))
    && (code == ATTACHMENT_OK && r.path in before && target != r.path ==> (r.path !in after <==> SourceGoes(config, r, env)))
  }

  lemma TouchedInSteps(before: Files, made: Files, done: Files, after: Files, code: int, target: string, size: nat,
                       config: Config, r: AttachRequest, env: Env)
    requires r.path in before && r.path in made && CopyPath(config, r.path) != r.path
    requires SameElsewhere(before, made, {CopyPath(config, r.path)})
    requires if code == ATTACHMENT_OK then Landed(made, done, target, size, config, r, env) else done == made
    requires after == done || after == done - {CopyPath(config, r.path)}
    ensures Touched(before, after, code, target, size, config, r, env)
  {
  }

  // The target holds at most what was copied; the source goes only after a complete copy and on request.
  ghost predicate FinalFiles(before: Files, after: Files, target: string, from: string, deleting: bool, source: string, env: Env)
    requires from in before
  {
    var copied := if env.copy.Opened? then before[target := Min(env.copy.written, before[from])] else before;
    after == if deleting && env.copy.Opened? && env.copy.complete && env.removesSource then copied - {source} else copied
  }

  lemma FinalFilesTotal(dir: string, before: Files, after: Files, target: string, from: string, deleting: bool, source: string, env: Env)
    requires from in before && FinalFiles(before, after, target, from, deleting, source, env)
    ensures DirTotal(dir, after) <= DirTotal(dir, before) + before[from]
  {
    var n := if env.copy.Opened? then Min(env.copy.written, before[from]) else 0;
    var copied := if env.copy.Opened? then before[target := n] else before;
    WriteAdds(dir, before, target, n);
    RemoveShrinks(dir, copied, source);
  }
}
