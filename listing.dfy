/** `get_file_list`, the paged listing of a folder's files, and `get_share_info`, the share link
    and extraction code of a file or folder. The server's replies are inputs: a listing is the
    sequence of replies to successive requests (`None` for a failed request), and a share-info
    reply is the dict it decodes to. */
module Listing {
  import opened Strings
  import opened Codes
  import opened NameCodec
  import opened Times
  import opened NameMaps

  // ---------------------------------------------------------------------------------------------
  // get_file_list

  /** One file of a listing page, its fields as the server sends them. */
  datatype RawListFile = RawListFile(id: string, nameAll: string, time: string, size: string,
                                     downs: string, onof: string, isDes: string)

  datatype ListedFile = ListedFile(id: int, name: string, time: Stamp, size: string, ftype: string,
                                   downs: int, hasPwd: bool, hasDes: bool)

  /** A decoded reply: `info` is 0 once every page has been sent. */
  datatype ListPage = ListPage(info: int, rows: seq<RawListFile>)

  /** One row made into a file record. The restored name comes first and raises `IndexError`
      for a name with neither `.` nor `#`; then the fields are converted in the order of the
      dict the source builds: `int` of the id, `_time_format` of the time (`ValueError` or
      `OverflowError`), and `int` of the download count and the two flags. */
  function ListEntry(d: Disguise, today: int, e: RawListFile): (r: Outcome<ListedFile>)
    ensures r.Raised? && r.fault == IndexOutOfRange <==> '.' !in e.nameAll && '#' !in e.nameAll
    ensures r.Done? <==> (('.' in e.nameAll || '#' in e.nameAll) && ParseInt(e.id).Some?
      && TimeFormat(today, e.time).Done? && ParseInt(e.downs).Some? && ParseInt(e.onof).Some?
      && ParseInt(e.isDes).Some?)
    ensures r.Raised? && r.fault == DateOutOfRange <==> (('.' in e.nameAll || '#' in e.nameAll)
      && ParseInt(e.id).Some? && TimeFormat(today, e.time) == Raised(DateOutOfRange))
    ensures r.Done? ==> ('.' in r.value.name && r.value.size == e.size && TimeFormat(today, e.time) == Done(r.value.time)
      && Some(r.value.id) == ParseInt(e.id) && Some(r.value.downs) == ParseInt(e.downs)
      && (r.value.hasPwd <==> ParseInt(e.onof) == Some(1))
      && (r.value.hasDes <==> ParseInt(e.isDes) == Some(1)))
  {
    if '.' !in e.nameAll && '#' !in e.nameAll then Raised(IndexOutOfRange)
    else
      var (name, ftype) := RightName(d, e.nameAll);
      var id, time, downs := ParseInt(e.id), TimeFormat(today, e.time), ParseInt(e.downs);
      var onof, isDes := ParseInt(e.onof), ParseInt(e.isDes);
      if id.None? then Raised(NotAnInteger)
      else if time.Raised? then Raised(time.fault)
      else if downs.None? || onof.None? || isDes.None? then Raised(NotAnInteger)
      else Done(ListedFile(id.value, name, time.value, e.size, ftype, downs.value,
                           onof.value == 1, isDes.value == 1))
  }

  /** Some reply still to come says that every page has been sent; without one the source
      requests forever. */
  predicate Stops(answers: seq<Option<ListPage>>) {
    exists k :: 0 <= k < |answers| && answers[k].Some? && answers[k].value.info == 0
  }

  lemma StopsLater(answers: seq<Option<ListPage>>)
    requires Stops(answers) && answers != []
    requires !(answers[0].Some? && answers[0].value.info == 0)
    ensures Stops(answers[1..])
  {
    var k :| 0 <= k < |answers| && answers[k].Some? && answers[k].value.info == 0;
    assert answers[1..][k - 1] == answers[k];
  }

  /** The rows of one page made into records, followed by what the later pages give. */
  function RowsThen(d: Disguise, today: int, rows: seq<RawListFile>, rest: Outcome<seq<ListedFile>>)
    : (r: Outcome<seq<ListedFile>>)
    decreases |rows|
  {
    if rows == [] then rest
    else match ListEntry(d, today, rows[0])
      case Raised(f) => Raised(f)
      case Done(x) => Prepend([x], RowsThen(d, today, rows[1..], rest))
  }

  /** The listing from the remaining replies: a failed request is repeated, a reply with
      `info == 0` ends the listing, any other reply adds its rows. */
  function FileListFrom(d: Disguise, today: int, answers: seq<Option<ListPage>>): Outcome<seq<ListedFile>>
    requires Stops(answers)
    decreases |answers|
  {
    match answers[0]
    case None =>
      StopsLater(answers);
      FileListFrom(d, today, answers[1..])
    case Some(p) =>
      if p.info == 0 then Done([])
      else
        StopsLater(answers);
        RowsThen(d, today, p.rows, FileListFrom(d, today, answers[1..]))
  }

  /** `get_file_list`: also returns the page number of every request it made. */
  method GetFileList(d: Disguise, today: int, answers: seq<Option<ListPage>>)
    returns (r: Outcome<seq<ListedFile>>, pages: seq<int>)
    requires Stops(answers)
    ensures r == FileListFrom(d, today, answers)
    ensures ListPages(answers, pages)
  {
    var page := 1;
    var fileList: seq<ListedFile> := [];
    var i := 0;
    pages := [1];
    assert answers[0..] == answers;
    PrependNothing(FileListFrom(d, today, answers));
    while true
      invariant 0 <= i < |answers| && Stops(answers[i..])
      invariant |pages| == i + 1 && pages[i] == page && ListPages(answers, pages)
      invariant Prepend(fileList, FileListFrom(d, today, answers[i..])) == FileListFrom(d, today, answers)
      decreases |answers| - i
    {
      var stop, next;
      stop, r, fileList, next := ListAnswer(d, today, answers, i, fileList, page, FileListFrom(d, today, answers));
      if stop {
        return;
      }
      ListPagesExtend(answers, pages, next);
      page := next;
      i := i + 1;
      pages := pages + [page];
    }
  }

  /** One pass of the loop of `get_file_list`, on answer `i`: a failed request is repeated with
      the same page number, an `info == 0` answer ends the listing, any other adds its rows and
      moves to the next page. */
  method ListAnswer(d: Disguise, today: int, answers: seq<Option<ListPage>>, i: nat, fileList: seq<ListedFile>,
                    page: int, ghost whole: Outcome<seq<ListedFile>>)
    returns (stop: bool, r: Outcome<seq<ListedFile>>, fileList': seq<ListedFile>, next: int)
    requires i < |answers| && Stops(answers[i..])
    requires Prepend(fileList, FileListFrom(d, today, answers[i..])) == whole
    ensures stop ==> r == whole
    ensures !stop ==>
      (i + 1 < |answers| && Stops(answers[i + 1..])
       && Prepend(fileList', FileListFrom(d, today, answers[i + 1..])) == whole
       && next == page + (if answers[i].None? then 0 else 1))
  {
    fileList', next := fileList, page;
    r := Done(fileList);
    var resp := answers[i];
    if resp.None? {
      ListRetry(d, today, answers, i);
      return false, r, fileList', next;
    }
    if resp.value.info == 0 {
      ListEnd(d, today, answers, i, fileList);
      return true, Done(fileList), fileList', next;
    }
    next := page + 1;
    ListStep(d, today, answers, i);
    var raised;
    raised, fileList' := TakeRows(d, today, fileList, resp.value.rows, FileListFrom(d, today, answers[i + 1..]), whole);
    if raised.Some? {
      return true, Raised(raised.value), fileList', next;
    }
    stop := false;
  }

  /** The loop over the rows of one answer: either one of them raises, or all of them are
      appended. */
  method TakeRows(d: Disguise, today: int, fileList: seq<ListedFile>, rows: seq<RawListFile>,
                  ghost rest: Outcome<seq<ListedFile>>, ghost whole: Outcome<seq<ListedFile>>)
    returns (raised: Option<Fault>, fileList': seq<ListedFile>)
    requires Prepend(fileList, RowsThen(d, today, rows, rest)) == whole
    ensures raised.Some? ==> whole == Raised(raised.value)
    ensures raised.None? ==> Prepend(fileList', rest) == whole
  {
    fileList' := fileList;
    var j := 0;
    assert rows[0..] == rows;
    while j < |rows|
      invariant 0 <= j <= |rows|
      invariant Prepend(fileList', RowsThen(d, today, rows[j..], rest)) == whole
      decreases |rows| - j
    {
      assert rows[j..][1..] == rows[j + 1..];
      var e := ListEntry(d, today, rows[j]);
      if e.Raised? {
        return Some(e.fault), fileList';
      }
      PrependTwice(fileList', [e.value], RowsThen(d, today, rows[j + 1..], rest));
      fileList' := fileList' + [e.value];
      j := j + 1;
    }
    assert rows[j..] == [];
    raised := None;
  }

  /** `pages[k]` is the `pg` field of the `k`-th request: it starts at 1 and moves on after
      every answered request, while a failed request is repeated with the same number. */
  predicate ListPages(answers: seq<Option<ListPage>>, pages: seq<int>) {
    1 <= |pages| <= |answers| && pages[0] == 1
    && forall k :: 0 <= k < |pages| - 1 ==> pages[k + 1] == pages[k] + (if answers[k].None? then 0 else 1)
  }

  lemma ListPagesExtend(answers: seq<Option<ListPage>>, pages: seq<int>, page: int)
    requires ListPages(answers, pages) && |pages| < |answers|
    requires page == pages[|pages| - 1] + (if answers[|pages| - 1].None? then 0 else 1)
    ensures ListPages(answers, pages + [page])
  {
  }

  lemma ListStep(d: Disguise, today: int, answers: seq<Option<ListPage>>, i: nat)
    requires i < |answers| && Stops(answers[i..]) && answers[i].Some? && answers[i].value.info != 0
    ensures Stops(answers[i + 1..])
    ensures FileListFrom(d, today, answers[i..])
      == RowsThen(d, today, answers[i].value.rows, FileListFrom(d, today, answers[i + 1..]))
  {
    assert answers[i..][0] == answers[i];
    StopsLater(answers[i..]);
    assert answers[i..][1..] == answers[i + 1..];
  }

  lemma ListRetry(d: Disguise, today: int, answers: seq<Option<ListPage>>, i: nat)
    requires i < |answers| && Stops(answers[i..]) && answers[i].None?
    ensures Stops(answers[i + 1..])
    ensures FileListFrom(d, today, answers[i..]) == FileListFrom(d, today, answers[i + 1..])
  {
    assert answers[i..][0] == answers[i];
    StopsLater(answers[i..]);
    assert answers[i..][1..] == answers[i + 1..];
  }

  lemma ListEnd(d: Disguise, today: int, answers: seq<Option<ListPage>>, i: nat, out: seq<ListedFile>)
    requires i < |answers| && Stops(answers[i..]) && answers[i].Some? && answers[i].value.info == 0
    ensures Prepend(out, FileListFrom(d, today, answers[i..])) == Done(out)
  {
    assert answers[i..][0] == answers[i];
    assert out + [] == out;
  }

  /** Replies after the first one that ends the listing are never read. */
  lemma {:induction false} UnreadAfterEnd(d: Disguise, today: int, answers: seq<Option<ListPage>>, k: nat)
    requires k < |answers| && answers[k].Some? && answers[k].value.info == 0
    ensures Stops(answers) && Stops(answers[..k + 1])
    ensures FileListFrom(d, today, answers) == FileListFrom(d, today, answers[..k + 1])
    decreases k
  {
    assert answers[..k + 1][k] == answers[k];
    if k > 0 && !(answers[0].Some? && answers[0].value.info == 0) {
      StopsLater(answers);
      assert answers[1..][k - 1] == answers[k];
      UnreadAfterEnd(d, today, answers[1..], k - 1);
      assert answers[..k + 1][1..] == answers[1..][..k];
      StopsLater(answers[..k + 1]);
    }
  }

  /** A failed request in front changes nothing: it is repeated. */
  lemma RetryChangesNothing(d: Disguise, today: int, answers: seq<Option<ListPage>>)
    requires Stops(answers)
    ensures Stops([None] + answers)
    ensures FileListFrom(d, today, [None] + answers) == FileListFrom(d, today, answers)
  {
    var k :| 0 <= k < |answers| && answers[k].Some? && answers[k].value.info == 0;
    assert ([None] + answers)[k + 1] == answers[k];
    assert ([None] + answers)[1..] == answers;
  }

  /** The records of rows that all convert. */
  function Records(d: Disguise, today: int, rows: seq<RawListFile>): (r: seq<ListedFile>)
    requires forall q :: 0 <= q < |rows| ==> ListEntry(d, today, rows[q]).Done?
    ensures |r| == |rows|
    decreases |rows|
  {
    if rows == [] then []
    else [ListEntry(d, today, rows[0]).value] + Records(d, today, rows[1..])
  }

  /** One page of rows that all convert, then the end: exactly those records, in order. */
  lemma OnePage(d: Disguise, today: int, rows: seq<RawListFile>, info: int)
    requires info != 0
    requires forall q :: 0 <= q < |rows| ==> ListEntry(d, today, rows[q]).Done?
    ensures Stops([Some(ListPage(info, rows)), Some(ListPage(0, []))])
    ensures FileListFrom(d, today, [Some(ListPage(info, rows)), Some(ListPage(0, []))])
      == Done(Records(d, today, rows))
  {
    var answers := [Some(ListPage(info, rows)), Some(ListPage(0, []))];
    assert answers[1].Some? && answers[1].value.info == 0;
    assert answers[1..] == [Some(ListPage(0, []))];
    assert FileListFrom(d, today, answers[1..]) == Done([]);
    RowsAllDone(d, today, rows);
  }

  lemma {:induction false} RowsAllDone(d: Disguise, today: int, rows: seq<RawListFile>)
    requires forall q :: 0 <= q < |rows| ==> ListEntry(d, today, rows[q]).Done?
    ensures RowsThen(d, today, rows, Done([])) == Done(Records(d, today, rows))
    decreases |rows|
  {
    if rows != [] {
      var x := ListEntry(d, today, rows[0]).value;
      assert ListEntry(d, today, rows[0]) == Done(x);
      assert forall q :: 0 <= q < |rows[1..]| ==> ListEntry(d, today, rows[1..][q]).Done? by {
        forall q | 0 <= q < |rows[1..]| ensures ListEntry(d, today, rows[1..][q]).Done? {
          assert rows[1..][q] == rows[q + 1];
        }
      }
      RowsAllDone(d, today, rows[1..]);
    }
  }

  /** `get_file_id_list`: the files' names and ids, the last file of a name winning, in name
      order. An exception of `get_file_list` escapes. */
  function FileIdList(d: Disguise, today: int, answers: seq<Option<ListPage>>): (r: Outcome<seq<(string, int)>>)
    requires Stops(answers)
    ensures r.Raised? <==> FileListFrom(d, today, answers).Raised?
  {
    match FileListFrom(d, today, answers)
    case Raised(f) => Raised(f)
    case Done(fs) => Done(SortedMap(FileIds(fs)))
  }

  function FileIds(fs: seq<ListedFile>): (r: seq<(string, int)>)
    ensures |r| == |fs| && forall i :: 0 <= i < |fs| ==> r[i] == (fs[i].name, fs[i].id)
  {
    seq(|fs|, i requires 0 <= i < |fs| => (fs[i].name, fs[i].id))
  }

  /** The map holds each listed name once, in increasing order, with the id of the last file
      of that name. */
  lemma FileIdListSpec(fs: seq<ListedFile>)
    ensures var r := SortedMap(FileIds(fs));
      Ascending(Names(r))
      && (forall n :: n in Names(r) <==> exists i :: 0 <= i < |fs| && fs[i].name == n)
      && forall p :: 0 <= p < |r| ==> exists i :: LastOf(FileIds(fs), i, r[p].0) && fs[i].id == r[p].1
  {
    var e := FileIds(fs);
    SortedMapSpec(e);
    forall n ensures n in Names(e) <==> exists i :: 0 <= i < |fs| && fs[i].name == n {
      if n in Names(e) {
        var i :| 0 <= i < |Names(e)| && Names(e)[i] == n;
        assert fs[i].name == n;
      }
    }
  }

  // ---------------------------------------------------------------------------------------------
  // get_dir_list, get_dir_id_list

  /** A captured folder row: name, id, the `style` text shown when a code is set, description. */
  datatype RawDirRow = RawDirRow(name: string, fid: nat, pwdFlag: string, desc: string)

  datatype ListedDir = ListedDir(id: nat, name: string, hasPwd: bool, desc: string)

  const EscapedAmp: string := "&amp;"

  /** `get_dir_list`: `None` (a failed request) gives no folders. */
  function DirList(page: Option<seq<RawDirRow>>): (r: seq<ListedDir>)
    ensures page.None? ==> r == []
    ensures page.Some? ==> |r| == |page.value| && forall i :: 0 <= i < |r| ==>
      r[i].id == page.value[i].fid && r[i].desc == page.value[i].desc
      && (r[i].hasPwd <==> page.value[i].pwdFlag != "")
  {
    match page
    case None => []
    case Some(rows) =>
      seq(|rows|, i requires 0 <= i < |rows| =>
        ListedDir(rows[i].fid, ReplaceAll(rows[i].name, EscapedAmp, "&"), rows[i].pwdFlag != "", rows[i].desc))
  }

  /** The page's `&amp;` becomes `&`. */
  lemma DirNameUnescaped(x: string, y: string)
    requires '&' !in x && '&' !in y
    ensures DirList(Some([RawDirRow(x + EscapedAmp + y, 0, "", "")]))[0].name == x + "&" + y
  {
    assert x + EscapedAmp + y == x + (EscapedAmp + y);
    ReplaceAllSkip(x, EscapedAmp + y, EscapedAmp, "&");
    var t := EscapedAmp + y;
    assert t[..|EscapedAmp|] == EscapedAmp && t[|EscapedAmp|..] == y;
    assert ReplaceAll(t, EscapedAmp, "&") == "&" + ReplaceAll(y, EscapedAmp, "&");
    UnescapeKeeps(y);
    assert x + ("&" + y) == x + "&" + y;
  }

  /** A name without `&` is kept as it is. */
  lemma UnescapeKeeps(x: string)
    requires '&' !in x
    ensures ReplaceAll(x, EscapedAmp, "&") == x
    ensures DirList(Some([RawDirRow(x, 0, "", "")]))[0].name == x
  {
    ReplaceAllSkip(x, "", EscapedAmp, "&");
    ReplaceAllShort("", EscapedAmp, "&");
    assert x + "" == x;
  }

  /** The page's escaping of a name: every `&` written as `&amp;`, everything else kept. */
  function EscapeAmp(n: string): (r: string)
    ensures '&' !in n ==> r == n
    ensures |r| == |n| + 4 * multiset(n)['&']
  {
    if n == [] then []
    else assert n == [n[0]] + n[1..]; (if n[0] == '&' then EscapedAmp else [n[0]]) + EscapeAmp(n[1..])
  }

  /** Undoing `&amp;` recovers every escaped name, whatever `&` or `&amp;` it holds. */
  lemma {:induction false} UnescapeInverts(n: string)
    ensures ReplaceAll(EscapeAmp(n), EscapedAmp, "&") == n
  {
    if n != [] {
      var t := EscapeAmp(n[1..]);
      UnescapeInverts(n[1..]);
      if n[0] == '&' {
        assert EscapeAmp(n) == EscapedAmp + t;
        assert (EscapedAmp + t)[..|EscapedAmp|] == EscapedAmp && (EscapedAmp + t)[|EscapedAmp|..] == t;
        assert ReplaceAll(EscapedAmp + t, EscapedAmp, "&") == "&" + ReplaceAll(t, EscapedAmp, "&");
        assert "&" + n[1..] == n;
      } else {
        assert EscapeAmp(n) == [n[0]] + t;
        ReplaceAllSkip([n[0]], t, EscapedAmp, "&");
        assert [n[0]] + n[1..] == n;
      }
    }
  }

  /** Every listed folder has the name the page escaped, for all names. */
  lemma DirNamesRecovered(rows: seq<RawDirRow>, names: seq<string>)
    requires |rows| == |names| && forall i :: 0 <= i < |rows| ==> rows[i].name == EscapeAmp(names[i])
    ensures forall i :: 0 <= i < |rows| ==> DirList(Some(rows))[i].name == names[i]
  {
    forall i | 0 <= i < |rows| ensures DirList(Some(rows))[i].name == names[i] {
      UnescapeInverts(names[i]);
    }
  }

  function DirIds(dirs: seq<ListedDir>): (r: seq<(string, int)>)
    ensures |r| == |dirs| && forall i :: 0 <= i < |dirs| ==> r[i] == (dirs[i].name, dirs[i].id as int)
  {
    seq(|dirs|, i requires 0 <= i < |dirs| => (dirs[i].name, dirs[i].id as int))
  }

  /** `get_dir_id_list`. */
  function DirIdList(page: Option<seq<RawDirRow>>): (r: seq<(string, int)>)
    ensures page.None? ==> r == []
  {
    SortedMap(DirIds(DirList(page)))
  }

  /** Each folder name once, in increasing order, with the id of the last folder of that name. */
  lemma DirIdListSpec(page: Option<seq<RawDirRow>>)
    ensures var ds, r := DirList(page), DirIdList(page);
      Ascending(Names(r))
      && (forall n :: n in Names(r) <==> exists i :: 0 <= i < |ds| && ds[i].name == n)
      && forall p :: 0 <= p < |r| ==> exists i :: LastOf(DirIds(ds), i, r[p].0) && ds[i].id as int == r[p].1
  {
    var ds := DirList(page);
    var e := DirIds(ds);
    SortedMapSpec(e);
    forall n ensures n in Names(e) <==> exists i :: 0 <= i < |ds| && ds[i].name == n {
      if n in Names(e) {
        var i :| 0 <= i < |Names(e)| && Names(e)[i] == n;
        assert ds[i].name == n;
      }
    }
  }

  // ---------------------------------------------------------------------------------------------
  // get_share_info

  datatype ShareInfo = ShareInfo(code: Code, name: string, url: string, pwd: string, desc: string)

  function NoShare(code: Code): ShareInfo { ShareInfo(code, "", "", "", "") }

  /** The `id` check: a file reply whose `f_id` is `i`, or a reply with an empty `name`. */
  predicate BadId(info: map<string, string>) {
    ("f_id" in info && info["f_id"] == "i") || ("name" in info && info["name"] == "")
  }

  /** `get_share_info`. `reply` is the `info` dict of the first answer, `fileReply` the
      `(text, info)` of the second request, which is made only for a file. A missing field
      raises `KeyError`. */
  function GetShareInfo(reply: Option<map<string, string>>, fileReply: Option<(string, string)>)
    : (r: Outcome<ShareInfo>)
    ensures r.Done? && r.value.code != Success ==> r.value == NoShare(r.value.code)
    ensures r.Raised? ==> r.fault == MissingKey
  {
    match reply
    case None => Done(NoShare(NetworkError))
    case Some(info) =>
      if BadId(info) then Done(NoShare(IdError))
      else if "onof" !in info then Raised(MissingKey)
      else if info["onof"] == "1" && "pwd" !in info then Raised(MissingKey)
      else
        var pwd := if info["onof"] == "1" then info["pwd"] else "";
        if "f_id" in info then
          if "is_newd" !in info then Raised(MissingKey)
          else
            var url := info["is_newd"] + "/" + info["f_id"];
            match fileReply
            case None => Done(NoShare(NetworkError))
            case Some((name, desc)) => Done(ShareInfo(Success, name, url, pwd, desc))
        else if "new_url" !in info || "name" !in info || "des" !in info then Raised(MissingKey)
        else Done(ShareInfo(Success, info["name"], info["new_url"], pwd, info["des"]))
  }

  /** `ID_ERROR` comes back exactly for an answered request that fails the id check. */
  lemma IdErrorIff(reply: Option<map<string, string>>, fileReply: Option<(string, string)>)
    ensures GetShareInfo(reply, fileReply) == Done(NoShare(IdError)) <==> reply.Some? && BadId(reply.value)
  {
  }

  /** A successful answer carries the code only when `onof` is `"1"`; otherwise the `pwd`
      field, a random code, is ignored. */
  lemma SharePassword(reply: Option<map<string, string>>, fileReply: Option<(string, string)>)
    requires GetShareInfo(reply, fileReply).Done? && GetShareInfo(reply, fileReply).value.code == Success
    ensures reply.Some? && "onof" in reply.value
    ensures GetShareInfo(reply, fileReply).value.pwd ==
      if reply.value["onof"] == "1" then reply.value["pwd"] else ""
  {
  }

  /** A file's link is pieced together from `is_newd` and `f_id` and its name and description
      come from the second request; a folder's come from the first reply, and the second
      request plays no part. */
  lemma ShareFileOrFolder(reply: Option<map<string, string>>, fileReply: Option<(string, string)>,
                          other: Option<(string, string)>)
    requires GetShareInfo(reply, fileReply).Done? && GetShareInfo(reply, fileReply).value.code == Success
    ensures reply.Some?
    ensures var info, s := reply.value, GetShareInfo(reply, fileReply).value;
      if "f_id" in info then
        fileReply.Some? && s.url == info["is_newd"] + "/" + info["f_id"]
        && s.name == fileReply.value.0 && s.desc == fileReply.value.1
      else
        s.url == info["new_url"] && s.name == info["name"] && s.desc == info["des"]
        && GetShareInfo(reply, other) == GetShareInfo(reply, fileReply)
  {
  }

  /** A failed first request, or a failed second request for a file, gives `NETWORK_ERROR`. */
  lemma ShareNetworkError(reply: Option<map<string, string>>, fileReply: Option<(string, string)>)
    ensures reply.None? ==> GetShareInfo(reply, fileReply) == Done(NoShare(NetworkError))
    ensures reply.Some? && fileReply.None? && !BadId(reply.value) && "f_id" in reply.value
      && "onof" in reply.value && "is_newd" in reply.value && (reply.value["onof"] == "1" ==> "pwd" in reply.value)
      ==> GetShareInfo(reply, fileReply) == Done(NoShare(NetworkError))
  {
  }
}
