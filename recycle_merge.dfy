/** `get_rec_all`: the recycle bin reorganised. The root listing shows the files of deleted
    folders too, so each folder's files are matched by name against the root files: a match lends
    the folder file its time and takes the root entry out of the root list. */
module RecycleMerge {
  import opened Strings
  import opened Codes
  import opened NameCodec
  import opened RecycleLists

  datatype MergedFile = MergedFile(name: string, id: nat, size: string, ftype: string, time: string)
  datatype RecFolder = RecFolder(name: string, id: nat, time: string, size: string, files: seq<MergedFile>)

  /** `root_file_name_list`, the dict `{root_files[n]['name']: n for n in range(len(root_files))}`:
      built in index order, so a repeated name keeps its last index. */
  function NameIndex(root: seq<RootFile>): (m: map<string, nat>)
    ensures forall name :: name in m ==> m[name] < |root| && root[m[name]].name == name
    decreases |root|
  {
    if root == [] then map[]
    else NameIndex(root[..|root| - 1])[root[|root| - 1].name := |root| - 1]
  }

  /** A name is a key exactly when some root file has it, and its index is the last such file. */
  lemma {:induction false} NameIndexLast(root: seq<RootFile>, name: string)
    ensures name in NameIndex(root) <==> exists q :: 0 <= q < |root| && root[q].name == name
    ensures name in NameIndex(root) ==> forall q :: NameIndex(root)[name] < q < |root| ==> root[q].name != name
    decreases |root|
  {
    if root != [] {
      var init := root[..|root| - 1];
      NameIndexLast(init, name);
      assert forall q :: 0 <= q < |init| ==> init[q] == root[q];
    }
  }

  /** A folder file with its time: the time of the root file its name points to, or else the
      folder's own time. */
  function Merge(root: seq<RootFile>, dir: RecDir, f: FolderFile): MergedFile
  {
    var index := NameIndex(root);
    var time := if f.name in index then root[index[f.name]].time else dir.time;
    MergedFile(f.name, f.id, f.size, f.ftype, time)
  }

  function MergeFiles(root: seq<RootFile>, dir: RecDir, files: seq<FolderFile>): (r: seq<MergedFile>)
    ensures |r| == |files|
    decreases |files|
  {
    if files == [] then []
    else MergeFiles(root, dir, files[..|files| - 1]) + [Merge(root, dir, files[|files| - 1])]
  }

  /** The root entry a folder file takes out of the root list (`need_pop_from_root`), if any. */
  function Claim(root: seq<RootFile>, f: FolderFile): seq<RootFile>
  {
    var index := NameIndex(root);
    if f.name in index then [root[index[f.name]]] else []
  }

  function Claims(root: seq<RootFile>, files: seq<FolderFile>): seq<RootFile>
    decreases |files|
  {
    if files == [] then []
    else Claims(root, files[..|files| - 1]) + Claim(root, files[|files| - 1])
  }

  /** `[file for file in root_files if file not in need_pop_from_root]` */
  function Without(root: seq<RootFile>, claimed: seq<RootFile>): (r: seq<RootFile>)
    ensures forall x :: x in r <==> x in root && x !in claimed
    decreases |root|
  {
    if root == [] then []
    else (if root[0] in claimed then [] else [root[0]]) + Without(root[1..], claimed)
  }

  /** The folders built from the folder rows `dirs`, and the root entries they claim. */
  function FoldersFrom(d: Disguise, root: seq<RootFile>, dirs: seq<RecDir>, pages: nat -> Option<FolderPage>)
    : Outcome<(seq<RecFolder>, seq<RootFile>)>
    decreases |dirs|
  {
    if dirs == [] then Done(([], []))
    else match FolderFilesOf(d, pages(dirs[0].id))
      case Raised(e) => Raised(e)
      case Done(files) =>
        var folder := RecFolder(dirs[0].name, dirs[0].id, dirs[0].time, dirs[0].size, MergeFiles(root, dirs[0], files));
        Combine([folder], Claims(root, files), FoldersFrom(d, root, dirs[1..], pages))
  }

  function Combine(folders: seq<RecFolder>, claimed: seq<RootFile>, o: Outcome<(seq<RecFolder>, seq<RootFile>)>)
    : (r: Outcome<(seq<RecFolder>, seq<RootFile>)>)
    ensures r.Raised? <==> o.Raised?
  {
    match o
    case Raised(e) => Raised(e)
    case Done(v) => Done((folders + v.0, claimed + v.1))
  }

  /** `get_rec_all` on the listings the bin returns: the root page, the folder page and the page
      of each folder by id. */
  function RecAllOf(d: Disguise, rootPage: Option<seq<RawRootFile>>, dirPage: Option<seq<RawDir>>,
                    pages: nat -> Option<FolderPage>): Outcome<(seq<RootFile>, seq<RecFolder>)>
  {
    match RootFilesOf(d, rootPage)
    case Raised(e) => Raised(e)
    case Done(root) =>
      match FoldersFrom(d, root, DirsOf(dirPage), pages)
      case Raised(e) => Raised(e)
      case Done(v) => Done((Without(root, v.1), v.0))
  }

  method RecAll(d: Disguise, rootPage: Option<seq<RawRootFile>>, dirPage: Option<seq<RawDir>>,
                pages: nat -> Option<FolderPage>) returns (r: Outcome<(seq<RootFile>, seq<RecFolder>)>)
    ensures r == RecAllOf(d, rootPage, dirPage, pages)
  {
    var rootListing := RecRootFiles(d, rootPage);
    if rootListing.Raised? {
      return Raised(rootListing.fault);
    }
    var root := rootListing.value;
    var dirs := RecDirList(dirPage);
    var built := BuildFolders(d, root, dirs, pages);
    if built.Raised? {
      return Raised(built.fault);
    }
    var (folders, needPop) := built.value;
    return Done((Without(root, needPop), folders));
  }

  /** The outer loop of `get_rec_all` over the folders of the bin. */
  method BuildFolders(d: Disguise, root: seq<RootFile>, dirs: seq<RecDir>, pages: nat -> Option<FolderPage>)
      returns (r: Outcome<(seq<RecFolder>, seq<RootFile>)>)
    ensures r == FoldersFrom(d, root, dirs, pages)
  {
    var index := NameIndex(root);
    var needPop: seq<RootFile> := [];
    var folders: seq<RecFolder> := [];
    var k := 0;
    assert dirs[k..] == dirs;
    CombineNothing(FoldersFrom(d, root, dirs, pages));
    while k < |dirs|
      invariant 0 <= k <= |dirs|
      invariant Combine(folders, needPop, FoldersFrom(d, root, dirs[k..], pages)) == FoldersFrom(d, root, dirs, pages)
    {
      var listing := RecFolderFiles(d, pages(dirs[k].id));
      if listing.Raised? {
        FoldersRaise(d, root, dirs, pages, k, folders, needPop);
        return Raised(listing.fault);
      }
      var files := listing.value;
      var merged, claimed := MergeFolderFiles(root, index, dirs[k], files);
      FoldersAdvance(d, root, dirs, pages, k, folders, needPop, files);
      needPop := needPop + claimed;
      folders := folders + [RecFolder(dirs[k].name, dirs[k].id, dirs[k].time, dirs[k].size, merged)];
      k := k + 1;
    }
    assert dirs[k..] == [];
    assert folders + [] == folders && needPop + [] == needPop;
    return Done((folders, needPop));
  }

  /** The inner loop of `get_rec_all` over one folder's files: each file gets its time, and the
      root entries it matches are collected. */
  method MergeFolderFiles(root: seq<RootFile>, index: map<string, nat>, dir: RecDir, files: seq<FolderFile>)
      returns (merged: seq<MergedFile>, claimed: seq<RootFile>)
    requires index == NameIndex(root)
    ensures merged == MergeFiles(root, dir, files)
    ensures claimed == Claims(root, files)
  {
    merged, claimed := [], [];
    var j := 0;
    while j < |files|
      invariant 0 <= j <= |files|
      invariant merged == MergeFiles(root, dir, files[..j])
      invariant claimed == Claims(root, files[..j])
    {
      var file := files[j];
      MergeStep(root, dir, files, j);
      var time;
      if file.name in index {
        var pos := index[file.name];
        claimed := claimed + [root[pos]];
        time := root[pos].time;
      } else {
        time := dir.time;
      }
      merged := merged + [MergedFile(file.name, file.id, file.size, file.ftype, time)];
      j := j + 1;
    }
    assert files[..j] == files;
  }

  lemma MergeStep(root: seq<RootFile>, dir: RecDir, files: seq<FolderFile>, j: nat)
    requires j < |files|
    ensures MergeFiles(root, dir, files[..j + 1]) == MergeFiles(root, dir, files[..j]) + [Merge(root, dir, files[j])]
    ensures Claims(root, files[..j + 1]) == Claims(root, files[..j]) + Claim(root, files[j])
  {
    assert files[..j + 1][..j] == files[..j];
  }

  lemma CombineNothing(o: Outcome<(seq<RecFolder>, seq<RootFile>)>)
    ensures Combine([], [], o) == o
  {
    if o.Done? {
      assert [] + o.value.0 == o.value.0 && [] + o.value.1 == o.value.1;
    }
  }

  lemma FoldersStep(d: Disguise, root: seq<RootFile>, dirs: seq<RecDir>, pages: nat -> Option<FolderPage>, k: nat)
    requires k < |dirs|
    ensures var o := FolderFilesOf(d, pages(dirs[k].id));
      FoldersFrom(d, root, dirs[k..], pages) ==
        if o.Raised? then Raised(o.fault)
        else Combine([RecFolder(dirs[k].name, dirs[k].id, dirs[k].time, dirs[k].size, MergeFiles(root, dirs[k], o.value))],
          Claims(root, o.value), FoldersFrom(d, root, dirs[k + 1..], pages))
  {
    assert dirs[k..][0] == dirs[k] && dirs[k..][1..] == dirs[k + 1..];
  }

  lemma FoldersRaise(d: Disguise, root: seq<RootFile>, dirs: seq<RecDir>, pages: nat -> Option<FolderPage>, k: nat,
                     folders: seq<RecFolder>, claimed: seq<RootFile>)
    requires k < |dirs| && FolderFilesOf(d, pages(dirs[k].id)).Raised?
    requires Combine(folders, claimed, FoldersFrom(d, root, dirs[k..], pages)) == FoldersFrom(d, root, dirs, pages)
    ensures FoldersFrom(d, root, dirs, pages) == Raised(FolderFilesOf(d, pages(dirs[k].id)).fault)
  {
    FoldersStep(d, root, dirs, pages, k);
  }

  lemma FoldersAdvance(d: Disguise, root: seq<RootFile>, dirs: seq<RecDir>, pages: nat -> Option<FolderPage>, k: nat,
                       folders: seq<RecFolder>, claimed: seq<RootFile>, files: seq<FolderFile>)
    requires k < |dirs| && FolderFilesOf(d, pages(dirs[k].id)) == Done(files)
    requires Combine(folders, claimed, FoldersFrom(d, root, dirs[k..], pages)) == FoldersFrom(d, root, dirs, pages)
    ensures Combine(folders + [RecFolder(dirs[k].name, dirs[k].id, dirs[k].time, dirs[k].size, MergeFiles(root, dirs[k], files))],
      claimed + Claims(root, files), FoldersFrom(d, root, dirs[k + 1..], pages)) == FoldersFrom(d, root, dirs, pages)
  {
    FoldersStep(d, root, dirs, pages, k);
    var folder := RecFolder(dirs[k].name, dirs[k].id, dirs[k].time, dirs[k].size, MergeFiles(root, dirs[k], files));
    CombineTwice(folders, [folder], claimed, Claims(root, files), FoldersFrom(d, root, dirs[k + 1..], pages));
  }

  lemma CombineTwice(fs: seq<RecFolder>, gs: seq<RecFolder>, cs: seq<RootFile>, ds: seq<RootFile>,
                     o: Outcome<(seq<RecFolder>, seq<RootFile>)>)
    ensures Combine(fs, cs, Combine(gs, ds, o)) == Combine(fs + gs, cs + ds, o)
  {
    if o.Done? {
      assert fs + (gs + o.value.0) == (fs + gs) + o.value.0;
      assert cs + (ds + o.value.1) == (cs + ds) + o.value.1;
    }
  }

  // ---------------------------------------------------------------------------------------------
  // Properties

  /** A folder file takes the time of the last root file with its name, or the folder's time when
      the root list has no file of that name. */
  lemma MergeTime(root: seq<RootFile>, dir: RecDir, f: FolderFile)
    ensures var m := Merge(root, dir, f);
      && m.name == f.name && m.id == f.id && m.size == f.size && m.ftype == f.ftype
      && ((forall q :: 0 <= q < |root| ==> root[q].name != f.name) ==> m.time == dir.time)
      && (forall q :: (0 <= q < |root| && root[q].name == f.name
            && (forall q' :: q < q' < |root| ==> root[q'].name != f.name)) ==> m.time == root[q].time)
  {
    NameIndexLast(root, f.name);
  }

  lemma {:induction false} MergeFilesAt(root: seq<RootFile>, dir: RecDir, files: seq<FolderFile>, j: nat)
    requires j < |files|
    ensures MergeFiles(root, dir, files)[j] == Merge(root, dir, files[j])
    decreases |files|
  {
    if j < |files| - 1 {
      MergeFilesAt(root, dir, files[..|files| - 1], j);
    }
  }

  /** One folder per folder row, in order, each holding the merged files of its own page. */
  lemma {:induction false} FoldersShape(d: Disguise, root: seq<RootFile>, dirs: seq<RecDir>, pages: nat -> Option<FolderPage>)
    requires FoldersFrom(d, root, dirs, pages).Done?
    ensures var fs := FoldersFrom(d, root, dirs, pages).value.0;
      |fs| == |dirs| && forall k :: 0 <= k < |dirs| ==>
        FolderFilesOf(d, pages(dirs[k].id)).Done? &&
        fs[k] == RecFolder(dirs[k].name, dirs[k].id, dirs[k].time, dirs[k].size,
                           MergeFiles(root, dirs[k], FolderFilesOf(d, pages(dirs[k].id)).value))
    decreases |dirs|
  {
    if dirs != [] {
      FoldersShape(d, root, dirs[1..], pages);
      assert forall k :: 1 <= k < |dirs| ==> dirs[k] == dirs[1..][k - 1];
    }
  }

  /** Every claimed root entry is a root file with the name of one of the folder's files. */
  lemma {:induction false} ClaimsAreNamesakes(root: seq<RootFile>, files: seq<FolderFile>, c: RootFile)
    requires c in Claims(root, files)
    ensures c in root && exists f :: f in files && f.name == c.name
    decreases |files|
  {
    var init := files[..|files| - 1];
    if c in Claims(root, init) {
      ClaimsAreNamesakes(root, init, c);
      var f :| f in init && f.name == c.name;
      assert f in files;
    } else {
      assert files[|files| - 1] in files;
    }
  }

  /** A folder file whose name is some root file's name claims a root entry. */
  lemma {:induction false} NamesakeClaimed(root: seq<RootFile>, files: seq<FolderFile>, j: nat, q: nat)
    requires j < |files| && q < |root| && root[q].name == files[j].name
    ensures exists c :: c in Claims(root, files) && c in root && c.name == files[j].name
    decreases |files|
  {
    NameIndexLast(root, files[j].name);
    if j == |files| - 1 {
      var c := root[NameIndex(root)[files[j].name]];
      assert c in Claim(root, files[j]);
    } else {
      NamesakeClaimed(root, files[..|files| - 1], j, q);
      var c :| c in Claims(root, files[..|files| - 1]) && c in root && c.name == files[j].name;
      assert c in Claims(root, files);
    }
  }

  /** Only the last root file of a name is claimed: an earlier root file sharing that name stays
      in the root list although the folder holds the file, and the folder file takes the later
      one's time. */
  lemma EarlierNamesakeStays(a: RootFile, b: RootFile, dir: RecDir, f: FolderFile)
    requires a.name == b.name == f.name && a != b
    ensures Without([a, b], Claims([a, b], [f])) == [a]
    ensures Merge([a, b], dir, f).time == b.time
  {
    assert [a, b][..1] == [a];
    assert NameIndex([a, b]) == NameIndex([a])[b.name := 1];
    assert NameIndex([a, b])[f.name] == 1;
    assert Claim([a, b], f) == [b];
    assert [f][..0] == [];
    assert Claims([a, b], [f]) == [b];
    assert [a, b][1..] == [b];
    assert Without([b], [b]) == [];
    assert a !in [b];
  }
}
