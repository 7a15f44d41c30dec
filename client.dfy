/** The state the `LanZouCloud` client keeps between calls (the size limit, the archive tool,
    the upload-finished flag) and the operations that use it: `set_max_size`, `set_rar_tool`,
    the progress callback of `_upload_a_file`, and the batch operations `upload_file`,
    `upload_dir`, `down_dir_by_url` and `down_dir_by_id`. Everything they do through the file
    system, the archive tool or the network is an input: whether a path is a file, its size,
    what a directory lists, and the result code of each single upload or download. Paths are
    split at `/`. */
module Client {
  import opened Strings
  import opened Codes
  import opened NameCodec
  import opened NameMaps
  import opened Listing
  import opened FolderShare

  const DefaultMaxSize: int := 100
  const MiB: int := 1048576

  /** `{'code': ..., 'failed': ...}`; `None` where the source returns `'failed': None`. */
  datatype BatchResult<T> = BatchResult(code: Code, failed: Option<seq<T>>)

  // ---------------------------------------------------------------------------------------------
  // Failed items of a batch

  /** The batch loops of `upload_file` and `down_dir_by_*`: each item is tried in order and
      gives a code, or raises an exception that nothing in the loop catches. Without an
      exception the result lists the items whose code is not `SUCCESS`, in order, each with
      its code; otherwise the first exception ends the loop. */
  function Failures<T>(items: seq<T>, resultOf: T -> Outcome<Code>): (r: Outcome<seq<(T, Code)>>)
    ensures r.Done? ==> |r.value| <= |items|
    decreases |items|
  {
    if items == [] then Done([])
    else match resultOf(items[0])
      case Raised(f) => Raised(f)
      case Done(c) => Prepend(if c != Success then [(items[0], c)] else [], Failures(items[1..], resultOf))
  }

  /** Without an exception, exactly the failing items are listed, each with its own code. */
  lemma {:induction false} FailuresExact<T>(items: seq<T>, resultOf: T -> Outcome<Code>)
    requires Failures(items, resultOf).Done?
    ensures forall p :: p in Failures(items, resultOf).value ==>
      p.0 in items && resultOf(p.0) == Done(p.1) && p.1 != Success
    ensures forall x :: x in items ==> resultOf(x).Done?
    ensures forall x :: x in items && resultOf(x) != Done(Success) ==>
      (x, resultOf(x).value) in Failures(items, resultOf).value
    decreases |items|
  {
    if items != [] {
      FailuresExact(items[1..], resultOf);
      assert items == [items[0]] + items[1..];
    }
  }

  /** The loop raises exactly when some item raises, and then with the exception of the first
      item that does; the items after it are not tried. */
  lemma {:induction false} FailuresRaised<T>(items: seq<T>, resultOf: T -> Outcome<Code>)
    ensures Failures(items, resultOf).Raised? <==> exists i :: 0 <= i < |items| && resultOf(items[i]).Raised?
    ensures Failures(items, resultOf).Raised? ==>
      (exists i :: 0 <= i < |items| && resultOf(items[i]) == Raised(Failures(items, resultOf).fault)
         && forall j :: 0 <= j < i ==> resultOf(items[j]).Done?)
    decreases |items|
  {
    if items != [] {
      FailuresRaised(items[1..], resultOf);
      if resultOf(items[0]).Done? {
        var r := Failures(items, resultOf);
        if exists i :: 0 <= i < |items| && resultOf(items[i]).Raised? {
          var i :| 0 <= i < |items| && resultOf(items[i]).Raised?;
          assert items[1..][i - 1] == items[i];
        }
        if r.Raised? {
          var i :| 0 <= i < |items[1..]| && resultOf(items[1..][i]) == Raised(r.fault)
            && forall j :: 0 <= j < i ==> resultOf(items[1..][j]).Done?;
          assert resultOf(items[i + 1]) == Raised(r.fault);
          forall j | 0 <= j < i + 1 ensures resultOf(items[j]).Done? {
            if j > 0 {
              assert items[j] == items[1..][j - 1];
            }
          }
        }
      }
    }
  }

  /** Nothing is listed and nothing raised exactly when every item succeeded. */
  lemma FailuresEmpty<T>(items: seq<T>, resultOf: T -> Outcome<Code>)
    ensures Failures(items, resultOf) == Done([]) <==>
      forall i :: 0 <= i < |items| ==> resultOf(items[i]) == Done(Success)
  {
    FailuresRaised(items, resultOf);
    if Failures(items, resultOf).Done? {
      FailuresExact(items, resultOf);
      if Failures(items, resultOf).value != [] {
        var p := Failures(items, resultOf).value[0];
        assert p in Failures(items, resultOf).value;
        var i :| 0 <= i < |items| && items[i] == p.0;
      } else {
        forall i | 0 <= i < |items| ensures resultOf(items[i]) == Done(Success) {
          assert items[i] in items;
        }
      }
    }
  }

  /** Two batches in a row: the second runs only when the first did not raise, and its
      failures follow the first's. */
  lemma {:induction false} FailuresAppend<T>(a: seq<T>, b: seq<T>, resultOf: T -> Outcome<Code>)
    ensures Failures(a + b, resultOf)
      == if Failures(a, resultOf).Raised? then Failures(a, resultOf)
         else Prepend(Failures(a, resultOf).value, Failures(b, resultOf))
    decreases |a|
  {
    if a == [] {
      assert a + b == b;
      PrependNothing(Failures(b, resultOf));
    } else {
      assert (a + b)[1..] == a[1..] + b;
      assert (a + b)[0] == a[0];
      FailuresAppend(a[1..], b, resultOf);
      if resultOf(a[0]).Done? && Failures(a[1..], resultOf).Done? {
        var c := resultOf(a[0]).value;
        PrependTwice(if c != Success then [(a[0], c)] else [], Failures(a[1..], resultOf).value,
                     Failures(b, resultOf));
      }
    }
  }

  /** The batch loop: every item is tried until one raises, and a failure turns the code into
      `FAILED`. */
  method Batch<T>(items: seq<T>, resultOf: T -> Outcome<Code>) returns (r: Outcome<(Code, seq<(T, Code)>)>)
    ensures r.Raised? <==> Failures(items, resultOf).Raised?
    ensures r.Raised? ==> r.fault == Failures(items, resultOf).fault
    ensures r.Done? ==>
      (r.value.1 == Failures(items, resultOf).value && r.value.0 == (if r.value.1 == [] then Success else Failed))
  {
    var code := Success;
    var failed: seq<(T, Code)> := [];
    var i := 0;
    while i < |items|
      invariant 0 <= i <= |items|
      invariant Failures(items[..i], resultOf) == Done(failed)
      invariant code == (if failed == [] then Success else Failed)
      decreases |items| - i
    {
      var o := resultOf(items[i]);
      assert items[..i + 1] == items[..i] + [items[i]];
      FailuresAppend(items[..i], [items[i]], resultOf);
      assert [items[i]][1..] == [];
      if o.Raised? {
        FailuresAppend(items[..i + 1], items[i + 1..], resultOf);
        assert items[..i + 1] + items[i + 1..] == items;
        return Raised(o.fault);
      }
      var xs := if o.value != Success then [(items[i], o.value)] else [];
      assert Failures([items[i]][1..], resultOf) == Done([]);
      assert xs + [] == xs;
      assert Failures([items[i]], resultOf) == Done(xs);
      if o.value != Success {
        code := Failed;
        failed := failed + [(items[i], o.value)];
      } else {
        assert failed + [] == failed;
      }
      i := i + 1;
    }
    assert items[..i] == items;
    r := Done((code, failed));
  }

  function Firsts<T, U>(ps: seq<(T, U)>): (r: seq<T>)
    ensures |r| == |ps| && forall i :: 0 <= i < |ps| ==> r[i] == ps[i].0
  {
    seq(|ps|, i requires 0 <= i < |ps| => ps[i].0)
  }

  /** `not self._rar_path`: no tool was set, or the empty path was stored as one. */
  predicate NoTool(rarPath: Option<string>) { rarPath.None? || rarPath.value == "" }

  // ---------------------------------------------------------------------------------------------
  // Names used by upload_file

  /** `path.split(os.sep)[-1]`. */
  function BaseName(path: string): string
  {
    var parts := Split(path, '/');
    parts[|parts| - 1]
  }

  /** The archive's base name: the file name without its last extension, or the whole name
      when it has none. */
  function VolumeStem(fileName: string): string
  {
    var parts := Split(fileName, '.');
    if |parts| == 1 then parts[0] else Join('.', parts[..|parts| - 1])
  }

  /** The folder the volumes go to: the first volume's name without its last two extensions. */
  function FolderNameOf(volume: string): string
  {
    var parts := Split(volume, '.');
    if |parts| >= 2 then Join('.', parts[..|parts| - 2]) else ""
  }

  /** A name without `.` is its own stem; otherwise only the last extension goes. */
  lemma StemDropsExtension(x: string, ext: string)
    requires '.' !in ext
    ensures '.' !in x ==> VolumeStem(x) == x
    ensures VolumeStem(x + "." + ext) == x
  {
    SplitConcat(x, ext, '.');
    SplitNoSep(ext, '.');
    JoinSplit(x, '.');
    assert Split(x + "." + ext, '.')[..|Split(x, '.')|] == Split(x, '.');
    if '.' !in x {
      SplitNoSep(x, '.');
    }
  }

  /** The volumes that `rar` writes for a stem, `<stem>.<tag>.rar`, give the stem back as the
      folder name. */
  lemma FolderNameIsStem(stem: string, tag: string)
    requires '.' !in tag
    ensures FolderNameOf(stem + "." + tag + ".rar") == stem
  {
    var v := stem + "." + tag + ".rar";
    assert v == stem + ['.'] + (tag + ['.'] + "rar");
    SplitConcat(stem, tag + ['.'] + "rar", '.');
    SplitPair(tag, "rar", '.');
    JoinSplit(stem, '.');
    assert Split(v, '.')[..|Split(v, '.')| - 2] == Split(stem, '.');
  }

  /** The volumes of the archive: the directory entries that start with the stem, in listing
      order. */
  function VolumesOf(stem: string, listing: seq<string>): (r: seq<string>)
    ensures forall v :: v in r <==> v in listing && IsPrefix(stem, v)
    decreases |listing|
  {
    if listing == [] then []
    else (if IsPrefix(stem, listing[0]) then [listing[0]] else []) + VolumesOf(stem, listing[1..])
  }

  // ---------------------------------------------------------------------------------------------
  // The progress callback

  /** What the callback shows of the monitor's calls, each giving the bytes sent so far of
      `total`: every call up to the first that reports completion, none after. */
  function Shown(hasCallback: bool, total: int, sent: seq<int>): seq<int>
  {
    if !hasCallback then [] else UpToComplete(total, sent)
  }

  function UpToComplete(total: int, sent: seq<int>): seq<int>
    decreases |sent|
  {
    if sent == [] then []
    else if sent[0] == total then [sent[0]]
    else [sent[0]] + UpToComplete(total, sent[1..])
  }

  lemma UpToCompleteAt(total: int, sent: seq<int>, i: int)
    requires 0 <= i < |sent|
    ensures UpToComplete(total, sent[i..])
      == if sent[i] == total then [sent[i]] else [sent[i]] + UpToComplete(total, sent[i + 1..])
  {
    assert sent[i..][0] == sent[i] && sent[i..][1..] == sent[i + 1..];
  }

  /** The calls shown are a prefix of the calls, ending at the first complete one when there
      is one. */
  lemma {:induction false} ShownPrefix(total: int, sent: seq<int>)
    ensures var r := UpToComplete(total, sent);
      |r| <= |sent| && r == sent[..|r|]
      && (total in sent ==> r != [] && r[|r| - 1] == total && total !in r[..|r| - 1])
      && (total !in sent ==> r == sent)
    decreases |sent|
  {
    if sent != [] && sent[0] != total {
      ShownPrefix(total, sent[1..]);
      var r := UpToComplete(total, sent);
      assert r == [sent[0]] + UpToComplete(total, sent[1..]);
      assert sent == [sent[0]] + sent[1..];
      if total in sent {
        assert total in sent[1..];
        assert r[..|r| - 1] == [sent[0]] + UpToComplete(total, sent[1..])[..|r| - 2];
      }
    }
  }

  /** The monitor's extra call after completion is not shown. */
  lemma ExtraCallSuppressed(total: int, before: seq<int>)
    requires total !in before
    ensures Shown(true, total, before + [total, total]) == before + [total]
  {
    UpToCompleteSkips(total, before, [total, total]);
  }

  lemma {:induction false} UpToCompleteSkips(total: int, before: seq<int>, after: seq<int>)
    requires total !in before
    ensures UpToComplete(total, before + after) == before + UpToComplete(total, after)
    decreases |before|
  {
    if before == [] {
      assert before + after == after;
    } else {
      assert (before + after)[1..] == before[1..] + after;
      UpToCompleteSkips(total, before[1..], after);
    }
  }

  // ---------------------------------------------------------------------------------------------
  // The volume names that down_dir_by_* unpack

  /** `[a-z]+[0-9]+\.rar` at the start of `t`. As `[a-z]+` must be followed by a digit and
      `[0-9]+` by a dot, only the longest runs can succeed. */
  predicate RarTag(t: string) {
    var l := LowerRun(t);
    l > 0 && DigitRun(t[l..]) > 0 && IsPrefix(".rar", t[l + DigitRun(t[l..])..])
  }

  /** `re.match(r'.+\.[a-z]+[0-9]+\.rar', name)`: anchored at the start only, and `.` does not
      match a newline. */
  predicate VolumeLike(name: string) {
    exists i :: 1 <= i < |name| && name[i] == '.' && '\n' !in name[..i] && RarTag(name[i + 1..])
  }

  lemma {:induction false} DigitRunExact(a: string, b: string)
    requires AllDigits(a)
    requires b == [] || !IsAsciiDigit(b[0])
    ensures DigitRun(a + b) == |a|
    decreases |a|
  {
    if a == [] {
      assert a + b == b;
    } else {
      assert (a + b)[1..] == a[1..] + b;
      DigitRunExact(a[1..], b);
    }
  }

  lemma PartTagIsRarTag(digits: string)
    requires digits != [] && AllDigits(digits)
    ensures RarTag("part" + digits + ".rar")
  {
    var t := "part" + digits + ".rar";
    assert t == "part" + (digits + ".rar");
    LowerRunExact("part", digits + ".rar");
    assert t[4..] == digits + ".rar";
    DigitRunExact(digits, ".rar");
    assert t[4 + |digits|..] == ".rar";
  }

  /** Volume names `x.partN.rar`, as the decoder gives them back, are unpacked. */
  lemma VolumeNamesUnpacked(x: string, digits: string)
    requires x != [] && '\n' !in x && digits != [] && AllDigits(digits)
    ensures VolumeLike(x + ".part" + digits + ".rar")
  {
    var name := x + ".part" + digits + ".rar";
    var t := "part" + digits + ".rar";
    PartTagIsRarTag(digits);
    assert name == x + "." + t;
    assert name[|x|] == '.' && name[..|x|] == x && name[|x| + 1..] == t;
  }

  /** A name without a `.` is never unpacked. */
  lemma DotlessNotVolume(name: string)
    requires '.' !in name
    ensures !VolumeLike(name)
  {
    forall i | 0 <= i < |name| ensures name[i] != '.' {
      assert name[i] in name;
    }
  }

  // ---------------------------------------------------------------------------------------------
  // The client

  /** A download of the by-url batch: name, share link and code. */
  type UrlFailure = ((string, string), Code)
  /** A download of the by-id batch: name, file id and code. */
  type IdFailure = ((string, int), Code)

  /** `_upload_a_file` of a volume in `./tmp`. */
  function VolumeUpload(upload: string -> Outcome<Code>): string -> Outcome<Code>
  {
    v => upload("./tmp/" + v)
  }

  /** `down_file_by_url` of a `(name, url)` item. */
  function UrlDownload(download: string -> Outcome<Code>): ((string, string)) -> Outcome<Code>
  {
    (p: (string, string)) => download(p.1)
  }

  /** `down_file_by_id` of a `(name, id)` item. */
  function IdDownload(download: int -> Outcome<Code>): ((string, int)) -> Outcome<Code>
  {
    (p: (string, int)) => download(p.1)
  }

  function FileUrls(files: seq<ShareFile>): (r: seq<(string, string)>)
    ensures |r| == |files| && forall i :: 0 <= i < |files| ==> r[i] == (files[i].name, files[i].url)
  {
    seq(|files|, i requires 0 <= i < |files| => (files[i].name, files[i].url))
  }

  class LanZouCloud {
    /** The disguise extension and the per-instance token. */
    const disguise: Disguise
    /** `_max_size`, the largest file in MiB uploaded without splitting. */
    var maxSize: int
    /** `_rar_path`. */
    var rarPath: Option<string>
    /** `_upload_finished_flag`. */
    var uploadFinished: bool

    constructor(token: string)
      requires ValidToken(token)
      ensures disguise == Disguise(DefaultSuffix, token)
      ensures maxSize == DefaultMaxSize && rarPath == None && !uploadFinished
    {
      disguise := Disguise(DefaultSuffix, token);
      maxSize := DefaultMaxSize;
      rarPath := None;
      uploadFinished := false;
    }

    /** `set_max_size`: a limit under 100 MiB is refused and the old one kept. */
    method SetMaxSize(size: int) returns (code: Code)
      modifies this
      ensures code == (if size < DefaultMaxSize then Failed else Success)
      ensures maxSize == (if size < DefaultMaxSize then old(maxSize) else size)
      ensures rarPath == old(rarPath) && uploadFinished == old(uploadFinished)
    {
      if size < DefaultMaxSize {
        return Failed;
      }
      maxSize := size;
      code := Success;
    }

    /** `set_rar_tool`: `isFile` says whether the path names a file. */
    method SetRarTool(path: string, isFile: bool) returns (code: Code)
      modifies this
      ensures code == (if isFile then Success else ZipError)
      ensures rarPath == (if isFile then Some(path) else old(rarPath))
      ensures maxSize == old(maxSize) && uploadFinished == old(uploadFinished)
    {
      if isFile {
        rarPath := Some(path);
        code := Success;
      } else {
        code := ZipError;
      }
    }

    /** One call of the wrapped callback: the user's callback is shown the progress unless the
        upload was already complete, and a call reporting every byte sent marks it complete. */
    method Progress(hasCallback: bool, total: int, sent: int) returns (shown: bool)
      modifies this
      ensures shown <==> hasCallback && !old(uploadFinished)
      ensures uploadFinished == (old(uploadFinished) || (hasCallback && total == sent))
      ensures maxSize == old(maxSize) && rarPath == old(rarPath)
    {
      shown := false;
      if hasCallback {
        if !uploadFinished {
          shown := true;
        }
        if total == sent {
          uploadFinished := true;
        }
      }
    }

    /** One upload: the flag is cleared, then the monitor calls the wrapped callback once per
        element of `sent`. Returns the progress values the user's callback saw. */
    method MonitorUpload(hasCallback: bool, total: int, sent: seq<int>) returns (seen: seq<int>)
      modifies this
      ensures seen == Shown(hasCallback, total, sent)
      ensures uploadFinished == (hasCallback && total in sent)
      ensures maxSize == old(maxSize) && rarPath == old(rarPath)
    {
      uploadFinished := false;
      seen := [];
      var i := 0;
      assert sent[0..] == sent;
      while i < |sent|
        invariant 0 <= i <= |sent|
        invariant maxSize == old(maxSize) && rarPath == old(rarPath)
        invariant uploadFinished == (hasCallback && total in sent[..i])
        invariant hasCallback ==>
          (seen + (if uploadFinished then [] else UpToComplete(total, sent[i..])) == UpToComplete(total, sent))
        invariant !hasCallback ==> seen == []
        decreases |sent| - i
      {
        assert sent[..i + 1] == sent[..i] + [sent[i]];
        UpToCompleteAt(total, sent, i);
        var show := Progress(hasCallback, total, sent[i]);
        if show {
          seen := seen + [sent[i]];
        }
        i := i + 1;
      }
      assert sent[..i] == sent;
      if hasCallback && !uploadFinished {
        assert seen + [] == seen;
      }
    }

    /** `upload_file`. `upload(p)` is what `_upload_a_file` gives for path `p`, its code or the
        exception it raises (for one, `IndexError` for a name without `.`), `size` the
        file's size, `rarFails` whether running `rar` raised, `tmp` what `./tmp` lists
        afterwards and `mkdir(n)` the id of the folder made under the name `n` (`None` for
        `MKDIR_ERROR`). */
    method UploadFile(isFile: bool, size: int, path: string, upload: string -> Outcome<Code>, rarFails: bool,
                      tmp: seq<string>, mkdir: string -> Option<int>) returns (r: Outcome<BatchResult<string>>)
      ensures r == UploadFileOf(maxSize, rarPath, isFile, size, path, upload, rarFails, tmp, mkdir)
    {
      if !isFile {
        return Done(BatchResult(PathError, None));
      }
      if size <= maxSize * MiB {
        var up := upload(path);
        if up.Raised? {
          return Raised(up.fault);
        }
        if up.value == Success {
          return Done(BatchResult(up.value, Some([])));
        }
        return Done(BatchResult(up.value, Some([BaseName(path)])));
      }
      if NoTool(rarPath) {
        return Done(BatchResult(ZipError, None));
      }
      var stem := VolumeStem(BaseName(path));
      if rarFails {
        return Done(BatchResult(ZipError, None));
      }
      var volumes := VolumesOf(stem, tmp);
      if volumes == [] {
        return Raised(IndexOutOfRange);
      }
      if mkdir(FolderNameOf(volumes[0])).None? {
        return Done(BatchResult(MkdirError, None));
      }
      var b := Batch(volumes, VolumeUpload(upload));
      if b.Raised? {
        return Raised(b.fault);
      }
      r := Done(BatchResult(b.value.0, Some(Firsts(b.value.1))));
    }

    /** `upload_dir`. `entries` is what the directory lists, each with whether it is a file, and
        `uploaded(n)` what `upload_file` gives for entry `n`: its `failed` field, or the exception
        it raised. */
    method UploadDir(isDir: bool, dirPath: string, mkdir: string -> Option<int>, entries: seq<(string, bool)>,
                     uploaded: string -> Outcome<Option<seq<string>>>) returns (r: Outcome<BatchResult<string>>)
      ensures r == UploadDirOf(isDir, dirPath, mkdir, entries, uploaded)
    {
      if !isDir {
        return Done(BatchResult(PathError, None));
      }
      if mkdir(BaseName(dirPath)).None? {
        return Done(BatchResult(MkdirError, None));
      }
      var code := Success;
      var failed: seq<string> := [];
      var i := 0;
      while i < |entries|
        invariant 0 <= i <= |entries|
        invariant DirFailures(entries[..i], uploaded) == Done(failed)
        invariant code == (if failed == [] then Success else Failed)
        decreases |entries| - i
      {
        assert entries[..i + 1] == entries[..i] + [entries[i]];
        DirFailuresAppend(entries[..i], entries[i], uploaded);
        if entries[i].1 {
          var up := uploaded(entries[i].0);
          if up.Raised? {
            RaisedPersists(entries, i + 1, uploaded);
            return Raised(up.fault);
          }
          if up.value.Some? && up.value.value == [] {
            assert failed + [] == failed;
          }
          if up.value.Some? && up.value.value != [] {
            code := Failed;
            failed := failed + up.value.value;
          }
        }
        i := i + 1;
      }
      assert entries[..i] == entries;
      r := Done(BatchResult(code, Some(failed)));
    }

    /** `down_dir_by_url` once `get_folder_info_by_url` has answered `info`. `download(u)` is
        the code `down_file_by_url` returns for link `u`, `unpackFails` whether running the
        archive tool raised. An exception of `down_file_by_url` ends the method. */
    method DownDirByUrl(info: Outcome<FolderInfo>, download: string -> Outcome<Code>, unpackFails: bool)
      returns (r: Outcome<BatchResult<UrlFailure>>)
      ensures r == DownDirByUrlOf(rarPath, info, download, unpackFails)
    {
      if info.Raised? {
        return Raised(info.fault);
      }
      if info.value.code != Success {
        return Done(BatchResult(info.value.code, None));
      }
      var items := SortedMap(FileUrls(info.value.files));
      var b := Batch(items, UrlDownload(download));
      if b.Raised? {
        return Raised(b.fault);
      }
      r := Unpacked(Names(items), b.value.0, b.value.1, unpackFails);
    }

    /** `down_dir_by_id` once `get_file_id_list` has answered `ids` (and, when `mkdir` is set,
        `get_share_info` of the folder `share`). `download(id)` is the code `down_file_by_id`
        returns. */
    method DownDirById(ids: Outcome<seq<(string, int)>>, mkdir: bool, share: Outcome<ShareInfo>,
                       download: int -> Outcome<Code>, unpackFails: bool) returns (r: Outcome<BatchResult<IdFailure>>)
      ensures r == DownDirByIdOf(rarPath, ids, mkdir, share, download, unpackFails)
    {
      if ids.Raised? {
        return Raised(ids.fault);
      }
      if |ids.value| == 0 {
        return Done(BatchResult(Failed, Some([])));
      }
      if mkdir {
        if share.Raised? {
          return Raised(share.fault);
        }
        if share.value.code != Success {
          return Done(BatchResult(Failed, Some([])));
        }
      }
      var b := Batch(ids.value, IdDownload(download));
      if b.Raised? {
        return Raised(b.fault);
      }
      r := Unpacked(Names(ids.value), b.value.0, b.value.1, unpackFails);
    }

    /** The end both `down_dir_by_*` share: stop at a failed download, else unpack when every
        name looks like an archive volume. */
    method Unpacked<T>(names: seq<string>, code: Code, failed: seq<T>, unpackFails: bool)
      returns (r: Outcome<BatchResult<T>>)
      ensures r == UnpackedOf(rarPath, names, code, failed, unpackFails)
    {
      var result := BatchResult(code, Some(failed));
      if code != Success {
        return Done(result);
      }
      var all := AllVolumes(names);
      if !all {
        return Done(result);
      }
      var u := Unzip(rarPath, names, unpackFails);
      if u.Raised? {
        return Raised(u.fault);
      }
      if u.value == ZipError {
        return Done(BatchResult(ZipError, Some([])));
      }
      r := Done(result);
    }
  }

  /** The loop `for name in f_name_list: if not re.match(...): return result`. */
  method AllVolumes(names: seq<string>) returns (all: bool)
    ensures all <==> forall i :: 0 <= i < |names| ==> VolumeLike(names[i])
  {
    var i := 0;
    while i < |names|
      invariant 0 <= i <= |names|
      invariant forall k :: 0 <= k < i ==> VolumeLike(names[k])
      decreases |names| - i
    {
      if !VolumeLike(names[i]) {
        return false;
      }
      i := i + 1;
    }
    return true;
  }

  /** `_unzip`: no tool gives `ZIP_ERROR` before anything else; with one, the first name is
      read (`IndexError` for none) and a raising tool gives `ZIP_ERROR`. */
  function Unzip(rarPath: Option<string>, names: seq<string>, unpackFails: bool): Outcome<Code>
  {
    if NoTool(rarPath) then Done(ZipError)
    else if names == [] then Raised(IndexOutOfRange)
    else if unpackFails then Done(ZipError)
    else Done(Success)
  }

  function UnpackedOf<T>(rarPath: Option<string>, names: seq<string>, code: Code, failed: seq<T>, unpackFails: bool)
    : Outcome<BatchResult<T>>
  {
    var result := BatchResult(code, Some(failed));
    if code != Success || !(forall i :: 0 <= i < |names| ==> VolumeLike(names[i])) then Done(result)
    else match Unzip(rarPath, names, unpackFails)
      case Raised(f) => Raised(f)
      case Done(u) => if u == ZipError then Done(BatchResult(ZipError, Some([]))) else Done(result)
  }

  function UploadFileOf(maxSize: int, rarPath: Option<string>, isFile: bool, size: int, path: string,
                        upload: string -> Outcome<Code>, rarFails: bool, tmp: seq<string>, mkdir: string -> Option<int>)
    : Outcome<BatchResult<string>>
  {
    if !isFile then Done(BatchResult(PathError, None))
    else if size <= maxSize * MiB then
      match upload(path)
      case Raised(f) => Raised(f)
      case Done(code) => Done(BatchResult(code, Some(if code == Success then [] else [BaseName(path)])))
    else if NoTool(rarPath) || rarFails then Done(BatchResult(ZipError, None))
    else
      var volumes := VolumesOf(VolumeStem(BaseName(path)), tmp);
      if volumes == [] then Raised(IndexOutOfRange)
      else if mkdir(FolderNameOf(volumes[0])).None? then Done(BatchResult(MkdirError, None))
      else
        match Failures(volumes, VolumeUpload(upload))
        case Raised(f) => Raised(f)
        case Done(failed) => Done(BatchResult(if failed == [] then Success else Failed, Some(Firsts(failed))))
  }

  /** One entry of `upload_dir`'s loop: directories are skipped, a raised exception ends the
      loop, and a non-empty `failed` list is appended. */
  function DirStep(acc: Outcome<seq<string>>, e: (string, bool), uploaded: string -> Outcome<Option<seq<string>>>)
    : Outcome<seq<string>>
  {
    if acc.Raised? || !e.1 then acc
    else match uploaded(e.0)
      case Raised(f) => Raised(f)
      case Done(up) => if up.Some? then Done(acc.value + up.value) else acc
  }

  /** The failed files `upload_dir` gathers over the entries, in order. */
  function DirFailures(entries: seq<(string, bool)>, uploaded: string -> Outcome<Option<seq<string>>>)
    : Outcome<seq<string>>
    decreases |entries|
  {
    if entries == [] then Done([])
    else DirStep(DirFailures(entries[..|entries| - 1], uploaded), entries[|entries| - 1], uploaded)
  }

  lemma DirFailuresAppend(entries: seq<(string, bool)>, e: (string, bool),
                          uploaded: string -> Outcome<Option<seq<string>>>)
    ensures DirFailures(entries + [e], uploaded) == DirStep(DirFailures(entries, uploaded), e, uploaded)
  {
    assert (entries + [e])[..|entries|] == entries;
  }

  /** Once an upload has raised, the exception is the loop's result. */
  lemma {:induction false} RaisedPersists(entries: seq<(string, bool)>, i: int,
                                          uploaded: string -> Outcome<Option<seq<string>>>)
    requires 0 <= i <= |entries| && DirFailures(entries[..i], uploaded).Raised?
    ensures DirFailures(entries, uploaded) == DirFailures(entries[..i], uploaded)
    decreases |entries| - i
  {
    if i < |entries| {
      assert entries[..i + 1] == entries[..i] + [entries[i]];
      DirFailuresAppend(entries[..i], entries[i], uploaded);
      RaisedPersists(entries, i + 1, uploaded);
    } else {
      assert entries[..i] == entries;
    }
  }

  function UploadDirOf(isDir: bool, dirPath: string, mkdir: string -> Option<int>, entries: seq<(string, bool)>,
                       uploaded: string -> Outcome<Option<seq<string>>>): Outcome<BatchResult<string>>
  {
    if !isDir then Done(BatchResult(PathError, None))
    else if mkdir(BaseName(dirPath)).None? then Done(BatchResult(MkdirError, None))
    else match DirFailures(entries, uploaded)
      case Raised(f) => Raised(f)
      case Done(failed) => Done(BatchResult(if failed == [] then Success else Failed, Some(failed)))
  }

  function DownDirByUrlOf(rarPath: Option<string>, info: Outcome<FolderInfo>, download: string -> Outcome<Code>,
                          unpackFails: bool): Outcome<BatchResult<UrlFailure>>
  {
    match info
    case Raised(f) => Raised(f)
    case Done(fi) =>
      if fi.code != Success then Done(BatchResult(fi.code, None))
      else
        var items := SortedMap(FileUrls(fi.files));
        match Failures(items, UrlDownload(download))
        case Raised(f) => Raised(f)
        case Done(failed) =>
          UnpackedOf(rarPath, Names(items), if failed == [] then Success else Failed, failed, unpackFails)
  }

  function DownDirByIdOf(rarPath: Option<string>, ids: Outcome<seq<(string, int)>>, mkdir: bool,
                         share: Outcome<ShareInfo>, download: int -> Outcome<Code>, unpackFails: bool)
    : Outcome<BatchResult<IdFailure>>
  {
    match ids
    case Raised(f) => Raised(f)
    case Done(items) =>
      if |items| == 0 then Done(BatchResult(Failed, Some([])))
      else if mkdir && share.Raised? then Raised(share.fault)
      else if mkdir && share.value.code != Success then Done(BatchResult(Failed, Some([])))
      else
        match Failures(items, IdDownload(download))
        case Raised(f) => Raised(f)
        case Done(failed) =>
          UnpackedOf(rarPath, Names(items), if failed == [] then Success else Failed, failed, unpackFails)
  }

  // ---------------------------------------------------------------------------------------------
  // What the batch operations promise

  /** A file within the limit is uploaded whole: one upload, whose exception escapes, and on
      failure its own name is the one failed entry. */
  lemma SmallFileUploadedWhole(maxSize: int, rarPath: Option<string>, size: int, path: string,
                               upload: string -> Outcome<Code>, rarFails: bool, tmp: seq<string>,
                               mkdir: string -> Option<int>)
    requires size <= maxSize * MiB
    ensures var r := UploadFileOf(maxSize, rarPath, true, size, path, upload, rarFails, tmp, mkdir);
      (upload(path).Raised? ==> r == Raised(upload(path).fault))
      && (upload(path).Done? ==>
            r.Done? && r.value.code == upload(path).value
            && r.value.failed == Some(if upload(path).value == Success then [] else [BaseName(path)]))
  {
  }

  /** A file over the limit needs the archive tool. */
  lemma LargeFileNeedsTool(maxSize: int, rarPath: Option<string>, size: int, path: string, upload: string -> Outcome<Code>,
                           rarFails: bool, tmp: seq<string>, mkdir: string -> Option<int>)
    requires size > maxSize * MiB && NoTool(rarPath)
    ensures UploadFileOf(maxSize, rarPath, true, size, path, upload, rarFails, tmp, mkdir) == Done(BatchResult(ZipError, None))
  {
  }

  /** When the volumes were uploaded without an exception, the failed entries are exactly the
      volumes whose upload failed, and the code is `SUCCESS` exactly when there are none. */
  lemma VolumesReported(maxSize: int, rarPath: Option<string>, size: int, path: string,
                        upload: string -> Outcome<Code>, tmp: seq<string>, mkdir: string -> Option<int>)
    requires size > maxSize * MiB && !NoTool(rarPath)
    requires UploadFileOf(maxSize, rarPath, true, size, path, upload, false, tmp, mkdir).Done?
    requires UploadFileOf(maxSize, rarPath, true, size, path, upload, false, tmp, mkdir).value.code != MkdirError
    ensures var volumes := VolumesOf(VolumeStem(BaseName(path)), tmp);
      var r := UploadFileOf(maxSize, rarPath, true, size, path, upload, false, tmp, mkdir).value;
      r.failed.Some?
      && (forall v :: v in volumes ==> upload("./tmp/" + v).Done?)
      && (forall v :: v in r.failed.value <==> v in volumes && upload("./tmp/" + v) != Done(Success))
      && (r.code == Success <==> forall v :: v in volumes ==> upload("./tmp/" + v) == Done(Success))
  {
    var volumes := VolumesOf(VolumeStem(BaseName(path)), tmp);
    var resultOf := VolumeUpload(upload);
    var failed := Failures(volumes, resultOf).value;
    FailuresExact(volumes, resultOf);
    FailuresEmpty(volumes, resultOf);
    forall v ensures v in Firsts(failed) <==> v in volumes && resultOf(v) != Done(Success) {
      if v in Firsts(failed) {
        var k :| 0 <= k < |failed| && Firsts(failed)[k] == v;
        assert failed[k] in failed;
      }
      if v in volumes && resultOf(v) != Done(Success) {
        var k :| 0 <= k < |failed| && failed[k] == (v, resultOf(v).value);
        assert Firsts(failed)[k] == v;
      }
    }
    forall v | v in volumes ensures resultOf(v) == Done(Success) <== failed == [] {
      var k :| 0 <= k < |volumes| && volumes[k] == v;
    }
  }

  /** Once the volumes are written and their folder made, `upload_file` raises exactly when the
      upload of some volume raises, with the exception of the first such volume. */
  lemma VolumeUploadRaises(maxSize: int, rarPath: Option<string>, size: int, path: string,
                           upload: string -> Outcome<Code>, tmp: seq<string>, mkdir: string -> Option<int>)
    requires size > maxSize * MiB && !NoTool(rarPath)
    requires VolumesOf(VolumeStem(BaseName(path)), tmp) != []
    requires mkdir(FolderNameOf(VolumesOf(VolumeStem(BaseName(path)), tmp)[0])).Some?
    ensures var volumes := VolumesOf(VolumeStem(BaseName(path)), tmp);
      var r := UploadFileOf(maxSize, rarPath, true, size, path, upload, false, tmp, mkdir);
      (r.Raised? <==> exists i :: 0 <= i < |volumes| && upload("./tmp/" + volumes[i]).Raised?)
      && (r.Raised? ==>
            exists i :: 0 <= i < |volumes| && upload("./tmp/" + volumes[i]) == Raised(r.fault)
              && forall j :: 0 <= j < i ==> upload("./tmp/" + volumes[j]).Done?)
  {
    FailuresRaised(VolumesOf(VolumeStem(BaseName(path)), tmp), VolumeUpload(upload));
  }

  /** `upload_dir` only sees the `failed` lists: a file whose upload ended with `failed: None`
      (a path, archive-tool or folder error) leaves the result at `SUCCESS`. */
  lemma UploadDirMissesErrors(dirPath: string, mkdir: string -> Option<int>, name: string,
                              uploaded: string -> Outcome<Option<seq<string>>>)
    requires mkdir(BaseName(dirPath)).Some? && uploaded(name) == Done(None)
    ensures UploadDirOf(true, dirPath, mkdir, [(name, true)], uploaded) == Done(BatchResult(Success, Some([])))
  {
    DirFailuresAppend([], (name, true), uploaded);
    assert [] + [(name, true)] == [(name, true)];
  }

  /** What one entry adds to `upload_dir`'s list when nothing raises: nothing for a directory or
      a `failed: None`, otherwise its `failed` list. */
  function Piece(e: (string, bool), uploaded: string -> Outcome<Option<seq<string>>>): seq<string>
  {
    if !e.1 then []
    else match uploaded(e.0)
      case Done(Some(x)) => x
      case _ => []
  }

  /** The pieces of all entries, concatenated in order. */
  function Gathered(entries: seq<(string, bool)>, uploaded: string -> Outcome<Option<seq<string>>>): seq<string>
    decreases |entries|
  {
    if entries == [] then [] else Gathered(entries[..|entries| - 1], uploaded) + Piece(entries[|entries| - 1], uploaded)
  }

  predicate NoUploadRaises(entries: seq<(string, bool)>, uploaded: string -> Outcome<Option<seq<string>>>) {
    forall i :: 0 <= i < |entries| && entries[i].1 ==> uploaded(entries[i].0).Done?
  }

  lemma {:induction false} DirFailuresGathered(entries: seq<(string, bool)>,
                                               uploaded: string -> Outcome<Option<seq<string>>>)
    requires NoUploadRaises(entries, uploaded)
    ensures DirFailures(entries, uploaded) == Done(Gathered(entries, uploaded))
    decreases |entries|
  {
    if entries != [] {
      var init := entries[..|entries| - 1];
      assert NoUploadRaises(init, uploaded) by {
        forall i | 0 <= i < |init| && init[i].1 ensures uploaded(init[i].0).Done? {
          assert init[i] == entries[i];
        }
      }
      DirFailuresGathered(init, uploaded);
      var e := entries[|entries| - 1];
      if e.1 {
        assert uploaded(e.0).Done?;
        if uploaded(e.0).value.None? {
          assert Gathered(init, uploaded) + [] == Gathered(init, uploaded);
        }
      } else {
        assert Gathered(init, uploaded) + [] == Gathered(init, uploaded);
      }
    }
  }

  /** When no upload raises, `upload_dir` lists the failed lists of the file entries in order,
      directories skipped, and is `SUCCESS` exactly when that list is empty. */
  lemma UploadDirGathers(dirPath: string, mkdir: string -> Option<int>, entries: seq<(string, bool)>,
                         uploaded: string -> Outcome<Option<seq<string>>>)
    requires mkdir(BaseName(dirPath)).Some?
    requires NoUploadRaises(entries, uploaded)
    ensures UploadDirOf(true, dirPath, mkdir, entries, uploaded)
      == Done(BatchResult(if Gathered(entries, uploaded) == [] then Success else Failed,
                          Some(Gathered(entries, uploaded))))
  {
    DirFailuresGathered(entries, uploaded);
  }

  /** An upload that raises ends `upload_dir` with its exception, whatever comes after. */
  lemma UploadDirStopsAtRaise(dirPath: string, mkdir: string -> Option<int>, a: string, f: Fault,
                              rest: seq<(string, bool)>, uploaded: string -> Outcome<Option<seq<string>>>)
    requires mkdir(BaseName(dirPath)).Some? && uploaded(a) == Raised(f)
    ensures UploadDirOf(true, dirPath, mkdir, [(a, true)] + rest, uploaded) == Raised(f)
  {
    var es := [(a, true)] + rest;
    assert es[..1] == [] + [(a, true)];
    DirFailuresAppend([], (a, true), uploaded);
    RaisedPersists(es, 1, uploaded);
  }

  /** A downloaded folder is unpacked only when every download succeeded and every name looks
      like a volume; `ZIP_ERROR` then comes with no failed entries. */
  lemma UnpackOnlyAfterFullSuccess<T>(rarPath: Option<string>, names: seq<string>, code: Code, failed: seq<T>,
                                   unpackFails: bool)
    requires code != ZipError
    requires UnpackedOf(rarPath, names, code, failed, unpackFails) == Done(BatchResult(ZipError, Some([])))
    ensures code == Success
    ensures forall i :: 0 <= i < |names| ==> VolumeLike(names[i])
    ensures NoTool(rarPath) || unpackFails
  {
  }

  /** Without an exception, the failed downloads of `down_dir_by_url` are exactly the files
      whose download failed, visited in name order with the last file of a name standing for
      it. */
  lemma DownloadFailuresExact(rarPath: Option<string>, fi: FolderInfo, download: string -> Outcome<Code>,
                              unpackFails: bool)
    requires fi.code == Success
    requires DownDirByUrlOf(rarPath, Done(fi), download, unpackFails).Done?
    requires DownDirByUrlOf(rarPath, Done(fi), download, unpackFails).value.code == Failed
    ensures var items := SortedMap(FileUrls(fi.files));
      var r := DownDirByUrlOf(rarPath, Done(fi), download, unpackFails).value;
      Failures(items, UrlDownload(download)).Done?
      && r.failed == Some(Failures(items, UrlDownload(download)).value)
      && (forall p :: p in r.failed.value <==> p.0 in items && download(p.0.1) == Done(p.1) && p.1 != Success)
  {
    var items := SortedMap(FileUrls(fi.files));
    FailuresRaised(items, UrlDownload(download));
    FailuresExact(items, UrlDownload(download));
  }

  /** In `down_dir_by_url`, a download that raises ends the method with the exception of the
      first such file, in name order. */
  lemma DownloadRaises(rarPath: Option<string>, fi: FolderInfo, download: string -> Outcome<Code>, unpackFails: bool)
    requires fi.code == Success
    ensures var items := SortedMap(FileUrls(fi.files));
      var r := DownDirByUrlOf(rarPath, Done(fi), download, unpackFails);
      (exists i :: 0 <= i < |items| && download(items[i].1).Raised?) ==>
        r.Raised? && (exists i :: 0 <= i < |items| && download(items[i].1) == Raised(r.fault)
                        && forall j :: 0 <= j < i ==> download(items[j].1).Done?)
  {
    var items := SortedMap(FileUrls(fi.files));
    FailuresRaised(items, UrlDownload(download));
  }

  /** In `down_dir_by_id`, a download that raises ends the method with the exception of the
      first such file, in name order. */
  lemma DownloadByIdRaises(rarPath: Option<string>, items: seq<(string, int)>, mkdir: bool, share: Outcome<ShareInfo>,
                           download: int -> Outcome<Code>, unpackFails: bool)
    requires items != [] && (mkdir ==> share.Done? && share.value.code == Success)
    ensures var r := DownDirByIdOf(rarPath, Done(items), mkdir, share, download, unpackFails);
      (exists i :: 0 <= i < |items| && download(items[i].1).Raised?) ==>
        r.Raised? && (exists i :: 0 <= i < |items| && download(items[i].1) == Raised(r.fault)
                        && forall j :: 0 <= j < i ==> download(items[j].1).Done?)
  {
    FailuresRaised(items, IdDownload(download));
  }

  /** An empty shared folder is reported as `ZIP_ERROR` when no archive tool is set, and makes
      `_unzip` raise `IndexError` when one is: the "every name is a volume" test holds for no
      names at all. */
  lemma EmptyFolderDownload(rarPath: Option<string>, folder: Option<Folder>, download: string -> Outcome<Code>, unpackFails: bool)
    ensures var r := DownDirByUrlOf(rarPath, Done(FolderInfo(Success, folder, [])), download, unpackFails);
      if NoTool(rarPath) then r == Done(BatchResult(ZipError, Some([]))) else r == Raised(IndexOutOfRange)
  {
    assert FileUrls([]) == [];
    assert Names<string>([]) == [];
    assert SortKeys([]) == [];
    assert SortedMap<string>([]) == [];
  }

  /** `down_dir_by_id` with no files is `FAILED` without any download. */
  lemma EmptyIdListFails(rarPath: Option<string>, mkdir: bool, share: Outcome<ShareInfo>, download: int -> Outcome<Code>,
                         unpackFails: bool)
    ensures DownDirByIdOf(rarPath, Done([]), mkdir, share, download, unpackFails) == Done(BatchResult(Failed, Some([])))
  {
  }
}
