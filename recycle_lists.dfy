/** The three recycle-bin listings: `get_rec_dir_list`, `get_rec_file_list()` (the root of the
    bin) and `get_rec_file_list(folder_id)` (the files of one deleted folder). The rows the
    scraping patterns capture are inputs; `None` stands for a failed request. */
module RecycleLists {
  import opened Strings
  import opened Codes
  import opened Repeats
  import opened NameCodec

  /** A folder row; `id` is the value of its `\d+` capture. */
  datatype RawDir = RawDir(id: nat, name: string, size: string, time: string)
  datatype RecDir = RecDir(name: string, id: nat, size: string, time: string)

  /** A file row of the root of the bin: id, the type from its icon, the shown name, the time. */
  datatype RawRootFile = RawRootFile(id: nat, ftype: string, name: string, time: string)
  datatype RootFile = RootFile(name: string, id: nat, time: string, ftype: string)

  /** A file row inside a deleted folder: id, icon type, shown name, size. */
  datatype RawFolderFile = RawFolderFile(id: nat, ftype: string, name: string, size: string)
  datatype FolderFile = FolderFile(name: string, id: nat, size: string, ftype: string)

  /** The folder page: whether it says the folder holds no files, and its rows. */
  datatype FolderPage = FolderPage(empty: bool, rows: seq<RawFolderFile>)

  /** The repeat test the three listing loops share: a name already in `nameList` gets the next
      number, and a fresh one resets the counter. */
  method Disambiguate(nameList: seq<string>, counter: nat, name: string) returns (out: string, next: nat)
    ensures out == Rename(Tally(nameList, counter), name)
    ensures Tally(nameList + [out], next) == Record(Tally(nameList, counter), name)
  {
    if name in nameList {
      next := counter + 1;
      out := Numbered(name, next);
    } else {
      next := 1;
      out := name;
    }
  }

  // ---------------------------------------------------------------------------------------------
  // Folders

  function DirNames(rows: seq<RawDir>): (r: seq<string>)
    ensures |r| == |rows| && forall i :: 0 <= i < |rows| ==> r[i] == rows[i].name
  {
    seq(|rows|, i requires 0 <= i < |rows| => rows[i].name)
  }

  /** The folders of the bin: each row with its name told apart by the repeat counter. */
  function DirsOf(page: Option<seq<RawDir>>): (r: seq<RecDir>)
    ensures page.None? ==> r == []
    ensures page.Some? ==> |r| == |page.value|
  {
    match page
    case None => []
    case Some(rows) =>
      var names := Dedup(DirNames(rows));
      seq(|rows|, i requires 0 <= i < |rows| => RecDir(names[i], rows[i].id, rows[i].size, rows[i].time))
  }

  /** Folder `i` keeps its id, size and time; its name is the row's name, numbered when an
      earlier folder was already listed under that name. */
  lemma DirsOfRow(rows: seq<RawDir>, i: nat)
    requires i < |rows|
    ensures var r := DirsOf(Some(rows));
      && r[i].id == rows[i].id && r[i].size == rows[i].size && r[i].time == rows[i].time
      && IsPrefix(rows[i].name, r[i].name)
      && (r[i].name == rows[i].name <==> forall j :: 0 <= j < i ==> r[j].name != rows[i].name)
  {
    var r := DirsOf(Some(rows));
    var names := Dedup(DirNames(rows));
    DedupEntry(Start, DirNames(rows), i);
    DedupFreshIff(DirNames(rows), i);
    assert forall j :: 0 <= j < i ==> r[j].name == names[..i][j];
  }

  method RecDirList(page: Option<seq<RawDir>>) returns (dirs: seq<RecDir>)
    ensures dirs == DirsOf(page)
  {
    if page.None? {
      return [];
    }
    var rows := page.value;
    ghost var names := DirNames(rows);
    dirs := [];
    var dirNameList: seq<string> := [];
    var counter: nat := 1;
    var i := 0;
    assert names[0..] == names;
    while i < |rows|
      invariant 0 <= i <= |rows|
      invariant |dirs| == i && |dirNameList| == i
      invariant dirNameList + DedupFrom(Tally(dirNameList, counter), names[i..]) == Dedup(names)
      invariant forall j :: 0 <= j < i ==> dirs[j] == RecDir(Dedup(names)[j], rows[j].id, rows[j].size, rows[j].time)
    {
      ghost var counter0 := counter;
      var name;
      name, counter := Disambiguate(dirNameList, counter, rows[i].name);
      DedupAdvance(dirNameList, counter0, names, i, name, counter);
      dirNameList := dirNameList + [name];
      dirs := dirs + [RecDir(name, rows[i].id, rows[i].size, rows[i].time)];
      i := i + 1;
    }
    DirsOfRows(rows, dirs);
  }

  lemma DirsOfRows(rows: seq<RawDir>, dirs: seq<RecDir>)
    requires |dirs| == |rows|
    requires forall j :: 0 <= j < |rows| ==>
      dirs[j] == RecDir(Dedup(DirNames(rows))[j], rows[j].id, rows[j].size, rows[j].time)
    ensures dirs == DirsOf(Some(rows))
  {
  }

  // ---------------------------------------------------------------------------------------------
  // Files at the root of the bin

  /** A name cut short by the page ends in `...`, which is removed. */
  function Trimmed(name: string): (r: string)
    ensures |r| <= |name| && IsPrefix(r, name)
  {
    if IsSuffix("...", name) then name[..|name| - 3] else name
  }

  /** A name that does not end with its type gets `.` and the type appended. */
  function WithType(name: string, ftype: string): (r: string)
    ensures IsSuffix(ftype, r) && IsPrefix(name, r)
  {
    if IsSuffix(ftype, name) then name else name + "." + ftype
  }

  /** The root entry the loop body builds from row `e` in state `t`; `None` when the name it
      hands to `_get_right_name` has no separator, where that function raises `IndexError`. */
  function RootEntry(d: Disguise, t: Tally, e: RawRootFile): (r: Option<RootFile>)
    ensures r.Some? ==> r.value.id == e.id && r.value.time == e.time && '.' in r.value.name
  {
    var n := WithType(Rename(t, Trimmed(e.name)), e.ftype);
    if '.' in n || '#' in n then Some(RootFile(RightName(d, n).0, e.id, e.time, RightName(d, n).1))
    else None
  }

  /** The loop over the root rows from state `t`. */
  function RootFilesFrom(d: Disguise, t: Tally, es: seq<RawRootFile>): Outcome<seq<RootFile>>
    decreases |es|
  {
    if es == [] then Done([])
    else match RootEntry(d, t, es[0])
      case None => Raised(IndexOutOfRange)
      case Some(f) => Prepend([f], RootFilesFrom(d, Record(t, Trimmed(es[0].name)), es[1..]))
  }

  function RootFilesOf(d: Disguise, page: Option<seq<RawRootFile>>): Outcome<seq<RootFile>>
  {
    match page
    case None => Done([])
    case Some(es) => RootFilesFrom(d, Start, es)
  }

  method RecRootFiles(d: Disguise, page: Option<seq<RawRootFile>>) returns (r: Outcome<seq<RootFile>>)
    ensures r == RootFilesOf(d, page)
  {
    if page.None? {
      return Done([]);
    }
    var es := page.value;
    var out: seq<RootFile> := [];
    var fileNameList: seq<string> := [];
    var counter: nat := 1;
    var i := 0;
    assert es[0..] == es;
    PrependNothing(RootFilesFrom(d, Start, es));
    assert Tally(fileNameList, counter) == Start;
    assert Prepend(out, RootFilesFrom(d, Tally(fileNameList, counter), es[i..])) == RootFilesFrom(d, Start, es);
    while i < |es|
      invariant 0 <= i <= |es|
      invariant Prepend(out, RootFilesFrom(d, Tally(fileNameList, counter), es[i..])) == RootFilesFrom(d, Start, es)
    {
      ghost var t := Tally(fileNameList, counter);
      var entry;
      entry, fileNameList, counter := RootRow(d, fileNameList, counter, es[i]);
      if entry.None? {
        RootStep(d, t, es, i);
        return Raised(IndexOutOfRange);
      }
      var f := entry.value;
      ghost var t' := Tally(fileNameList, counter);
      RootAdvance(d, out, t, t', es, i, f);
      out := out + [f];
      i := i + 1;
    }
    assert es[i..] == [] && out + [] == out;
    return Done(out);
  }

  /** The loop body for one root row. */
  method RootRow(d: Disguise, fileNameList: seq<string>, counter: nat, e: RawRootFile)
    returns (entry: Option<RootFile>, fileNameList': seq<string>, counter': nat)
    ensures entry == RootEntry(d, Tally(fileNameList, counter), e)
    ensures Tally(fileNameList', counter') == Record(Tally(fileNameList, counter), Trimmed(e.name))
  {
    var name := e.name;
    if IsSuffix("...", name) {
      name := name[..|name| - 3];
    }
    assert name == Trimmed(e.name);
    name, counter' := Disambiguate(fileNameList, counter, name);
    fileNameList' := fileNameList + [name];
    if !IsSuffix(e.ftype, name) {
      name := name + "." + e.ftype;
    }
    assert name == WithType(Rename(Tally(fileNameList, counter), Trimmed(e.name)), e.ftype);
    if '.' !in name && '#' !in name {
      return None, fileNameList', counter';
    }
    var (right, ftype) := RightName(d, name);
    entry := Some(RootFile(right, e.id, e.time, ftype));
  }

  lemma RootStep(d: Disguise, t: Tally, es: seq<RawRootFile>, i: nat)
    requires i < |es|
    ensures RootFilesFrom(d, t, es[i..]) ==
      match RootEntry(d, t, es[i])
      case None => Raised(IndexOutOfRange)
      case Some(f) => Prepend([f], RootFilesFrom(d, Record(t, Trimmed(es[i].name)), es[i + 1..]))
  {
    assert es[i..][0] == es[i] && es[i..][1..] == es[i + 1..];
  }

  lemma RootAdvance(d: Disguise, out: seq<RootFile>, t: Tally, t': Tally, es: seq<RawRootFile>, i: nat, f: RootFile)
    requires i < |es| && RootEntry(d, t, es[i]) == Some(f) && t' == Record(t, Trimmed(es[i].name))
    requires Prepend(out, RootFilesFrom(d, t, es[i..])) == RootFilesFrom(d, Start, es)
    ensures Prepend(out + [f], RootFilesFrom(d, t', es[i + 1..])) == RootFilesFrom(d, Start, es)
  {
    RootStep(d, t, es, i);
    PrependTwice(out, [f], RootFilesFrom(d, t', es[i + 1..]));
  }

  /** What the root listing keeps: one entry per row, in order, with the row's id and time, a
      name with a `.` and the lower-cased type `_get_right_name` reports. */
  lemma {:induction false} RootFilesShape(d: Disguise, t: Tally, es: seq<RawRootFile>)
    requires RootFilesFrom(d, t, es).Done?
    ensures var fs := RootFilesFrom(d, t, es).value;
      |fs| == |es| && forall i :: 0 <= i < |es| ==> fs[i].id == es[i].id && fs[i].time == es[i].time && '.' in fs[i].name
  {
    RootFilesLength(d, t, es);
    forall i | 0 <= i < |es|
      ensures RootFilesFrom(d, t, es).value[i].id == es[i].id
      ensures RootFilesFrom(d, t, es).value[i].time == es[i].time
      ensures '.' in RootFilesFrom(d, t, es).value[i].name
    {
      RootFilesAt(d, t, es, i);
    }
  }

  lemma {:induction false} RootFilesLength(d: Disguise, t: Tally, es: seq<RawRootFile>)
    requires RootFilesFrom(d, t, es).Done?
    ensures |RootFilesFrom(d, t, es).value| == |es|
    decreases |es|
  {
    if es != [] {
      RootFilesStep(d, t, es);
      RootFilesLength(d, Record(t, Trimmed(es[0].name)), es[1..]);
    }
  }

  lemma {:induction false} RootFilesAt(d: Disguise, t: Tally, es: seq<RawRootFile>, i: nat)
    requires RootFilesFrom(d, t, es).Done? && i < |es|
    ensures var fs := RootFilesFrom(d, t, es).value;
      i < |fs| && fs[i].id == es[i].id && fs[i].time == es[i].time && '.' in fs[i].name
    decreases i
  {
    RootFilesStep(d, t, es);
    var f := RootEntry(d, t, es[0]).value;
    var rest := RootFilesFrom(d, Record(t, Trimmed(es[0].name)), es[1..]);
    assert rest.Done?;
    var fs := RootFilesFrom(d, t, es).value;
    assert fs == [f] + rest.value;
    if i == 0 {
      assert fs[0] == f;
    } else {
      RootFilesAt(d, Record(t, Trimmed(es[0].name)), es[1..], i - 1);
      assert es[i] == es[1..][i - 1];
      assert fs[i] == rest.value[i - 1];
    }
  }

  lemma RootFilesStep(d: Disguise, t: Tally, es: seq<RawRootFile>)
    requires es != [] && RootFilesFrom(d, t, es).Done?
    ensures RootEntry(d, t, es[0]).Some?
    ensures RootFilesFrom(d, t, es)
      == Prepend([RootEntry(d, t, es[0]).value], RootFilesFrom(d, Record(t, Trimmed(es[0].name)), es[1..]))
  {
  }

  /** Rows whose trimmed names all carry a `.` never make the listing raise. */
  lemma {:induction false} RootFilesDotted(d: Disguise, t: Tally, es: seq<RawRootFile>)
    requires forall i :: 0 <= i < |es| ==> '.' in Trimmed(es[i].name)
    ensures RootFilesFrom(d, t, es).Done?
    decreases |es|
  {
    if es != [] {
      var m := Trimmed(es[0].name);
      var n := WithType(Rename(t, m), es[0].ftype);
      assert IsPrefix(m, n);
      var k :| 0 <= k < |m| && m[k] == '.';
      assert n[k] == '.';
      RootFilesDotted(d, Record(t, m), es[1..]);
    }
  }

  // ---------------------------------------------------------------------------------------------
  // Files inside a deleted folder

  /** The folder entry built from row `e` in state `t`: the decoded name is told apart by the
      counter and then given its type; `None` when the shown name has no separator. */
  function FolderEntry(d: Disguise, t: Tally, e: RawFolderFile): Option<FolderFile>
  {
    if '.' in e.name || '#' in e.name then
      var (right, ftype) := RightName(d, e.name);
      Some(FolderFile(WithType(Rename(t, right), ftype), e.id, e.size, ftype))
    else None
  }

  function FolderFilesFrom(d: Disguise, t: Tally, es: seq<RawFolderFile>): Outcome<seq<FolderFile>>
    decreases |es|
  {
    if es == [] then Done([])
    else match FolderEntry(d, t, es[0])
      case None => Raised(IndexOutOfRange)
      case Some(f) => Prepend([f], FolderFilesFrom(d, Record(t, RightName(d, es[0].name).0), es[1..]))
  }

  function FolderFilesOf(d: Disguise, page: Option<FolderPage>): Outcome<seq<FolderFile>>
  {
    match page
    case None => Done([])
    case Some(p) => if p.empty then Done([]) else FolderFilesFrom(d, Start, p.rows)
  }

  method RecFolderFiles(d: Disguise, page: Option<FolderPage>) returns (r: Outcome<seq<FolderFile>>)
    ensures r == FolderFilesOf(d, page)
  {
    if page.None? || page.value.empty {
      return Done([]);
    }
    var es := page.value.rows;
    var out: seq<FolderFile> := [];
    var fileNameList: seq<string> := [];
    var counter: nat := 1;
    var i := 0;
    assert es[0..] == es;
    PrependNothing(FolderFilesFrom(d, Start, es));
    while i < |es|
      invariant 0 <= i <= |es|
      invariant Prepend(out, FolderFilesFrom(d, Tally(fileNameList, counter), es[i..])) == FolderFilesFrom(d, Start, es)
    {
      ghost var t := Tally(fileNameList, counter);
      assert es[i..][0] == es[i] && es[i..][1..] == es[i + 1..];
      if '.' !in es[i].name && '#' !in es[i].name {
        return Raised(IndexOutOfRange);
      }
      var (right, ftype) := RightName(d, es[i].name);
      var name;
      name, counter := Disambiguate(fileNameList, counter, right);
      fileNameList := fileNameList + [name];
      if !IsSuffix(ftype, name) {
        name := name + "." + ftype;
      }
      var f := FolderFile(name, es[i].id, es[i].size, ftype);
      PrependTwice(out, [f], FolderFilesFrom(d, Tally(fileNameList, counter), es[i + 1..]));
      out := out + [f];
      i := i + 1;
    }
    assert es[i..] == [] && out + [] == out;
    return Done(out);
  }

  /** Listing a folder raises exactly when some row's shown name has no separator. */
  lemma {:induction false} FolderFilesRaise(d: Disguise, t: Tally, es: seq<RawFolderFile>)
    ensures FolderFilesFrom(d, t, es).Raised? <==> exists i :: 0 <= i < |es| && '.' !in es[i].name && '#' !in es[i].name
    decreases |es|
  {
    if es != [] && ('.' in es[0].name || '#' in es[0].name) {
      FolderFilesRaise(d, Record(t, RightName(d, es[0].name).0), es[1..]);
      assert forall i :: 1 <= i < |es| ==> es[i] == es[1..][i - 1];
    }
  }

  /** A folder listing has one entry per row, in order, with the row's id and size, and each
      name ends with its type. */
  lemma {:induction false} FolderFilesShape(d: Disguise, t: Tally, es: seq<RawFolderFile>)
    requires FolderFilesFrom(d, t, es).Done?
    ensures var fs := FolderFilesFrom(d, t, es).value;
      |fs| == |es| && forall i :: 0 <= i < |es| ==>
        fs[i].id == es[i].id && fs[i].size == es[i].size && IsSuffix(fs[i].ftype, fs[i].name)
    decreases |es|
  {
    if es != [] {
      FolderFilesShape(d, Record(t, RightName(d, es[0].name).0), es[1..]);
    }
  }
}
