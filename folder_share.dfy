/** `get_folder_info_by_url` and `get_folder_info_by_id`: a shared folder's details and every
    file in it, fetched page by page from `filemoreajax.php`. The share page (its notes
    removed), the fields scraped from it and the decoded replies to the page requests are
    inputs; `None` stands for a request that raised. The calendar is a parameter: `calendar(n)`
    is day `n` written `%Y-%m-%d`. */
module FolderShare {
  import opened Strings
  import opened Codes
  import opened NameCodec
  import opened Times
  import opened ShareUrl
  import opened Listing

  const HostUrl: string := "https://www.lanzous.com"
  const Missing: string := "文件不存在"
  const AskFolderPassword: string := "请输入密码"

  /** One file of a reply page. */
  datatype RawShareFile = RawShareFile(nameAll: string, time: string, size: string, id: string)

  datatype ShareFile = ShareFile(name: string, time: Stamp, size: string, ftype: string, url: string)

  /** A decoded page reply: `zt` 1 carries files, 2 says there are no more, 3 refuses the
      code, 4 asks to be asked again. */
  datatype FolderReply = FolderReply(zt: int, rows: seq<RawShareFile>)

  /** The folder fields the scraping patterns find on the share page; the time lacks the year. */
  datatype FolderMeta = FolderMeta(id: string, name: string, time: string, desc: string)

  datatype Folder = Folder(name: string, id: string, pwd: string, time: string, desc: string, url: string)

  datatype FolderInfo = FolderInfo(code: Code, folder: Option<Folder>, files: seq<ShareFile>)

  function NoFolder(code: Code): FolderInfo { FolderInfo(code, None, []) }

  /** The share page (`None`: the request raised), its scraped fields (`None`: a pattern found
      nothing), and the replies to the page requests in the order they are made. */
  datatype FolderSite = FolderSite(html: Option<string>, meta: Option<FolderMeta>,
                                   replies: seq<Option<FolderReply>>)

  /** One file of a `zt == 1` page: the name is restored first, then the time converted. */
  function ShareEntry(d: Disguise, today: int, e: RawShareFile): (r: Outcome<ShareFile>)
    ensures r.Raised? && r.fault == IndexOutOfRange <==> '.' !in e.nameAll && '#' !in e.nameAll
    ensures r.Done? ==> ('.' in r.value.name && r.value.size == e.size && r.value.url == HostUrl + "/" + e.id
      && TimeFormat(today, e.time) == Done(r.value.time))
  {
    if '.' !in e.nameAll && '#' !in e.nameAll then Raised(IndexOutOfRange)
    else
      var (name, ftype) := RightName(d, e.nameAll);
      match TimeFormat(today, e.time)
      case Raised(f) => Raised(f)
      case Done(time) => Done(ShareFile(name, time, e.size, ftype, HostUrl + "/" + e.id))
  }

  /** How the page loop ends: every page read, or an early return with a code. */
  datatype Paging = Complete(files: seq<ShareFile>) | Abort(code: Code)

  function Ahead(xs: seq<ShareFile>, o: Outcome<Paging>): (r: Outcome<Paging>)
  {
    match o
    case Done(Complete(fs)) => Done(Complete(xs + fs))
    case _ => o
  }

  lemma AheadNothing(o: Outcome<Paging>)
    ensures Ahead([], o) == o
  {
    if o.Done? && o.value.Complete? {
      assert [] + o.value.files == o.value.files;
    }
  }

  lemma AheadTwice(xs: seq<ShareFile>, ys: seq<ShareFile>, o: Outcome<Paging>)
    ensures Ahead(xs, Ahead(ys, o)) == Ahead(xs + ys, o)
  {
    if o.Done? && o.value.Complete? {
      assert xs + (ys + o.value.files) == (xs + ys) + o.value.files;
    }
  }

  /** A reply that is answered again by another request. */
  predicate Continues(reply: Option<FolderReply>) { reply.Some? && (reply.value.zt == 1 || reply.value.zt == 4) }

  /** Some reply ends the loop; without one the source requests forever. */
  predicate Ends(replies: seq<Option<FolderReply>>) {
    exists k :: 0 <= k < |replies| && !Continues(replies[k])
  }

  lemma EndsLater(replies: seq<Option<FolderReply>>)
    requires Ends(replies) && replies != [] && Continues(replies[0])
    ensures Ends(replies[1..])
  {
    var k :| 0 <= k < |replies| && !Continues(replies[k]);
    assert replies[1..][k - 1] == replies[k];
  }

  /** The files of one page, then what the later replies give. */
  function PageThen(d: Disguise, today: int, rows: seq<RawShareFile>, rest: Outcome<Paging>): (r: Outcome<Paging>)
    ensures r.Done? && r.value.Abort? ==> r == rest
    decreases |rows|
  {
    if rows == [] then rest
    else match ShareEntry(d, today, rows[0])
      case Raised(f) => Raised(f)
      case Done(x) => Ahead([x], PageThen(d, today, rows[1..], rest))
  }

  /** The page loop over the remaining replies. */
  function PagingFrom(d: Disguise, today: int, replies: seq<Option<FolderReply>>): (r: Outcome<Paging>)
    requires Ends(replies)
    ensures r.Done? && r.value.Abort? ==> r.value.code != Success
    decreases |replies|
  {
    match replies[0]
    case None => Done(Abort(NetworkError))
    case Some(reply) =>
      if reply.zt == 1 then
        EndsLater(replies);
        PageThen(d, today, reply.rows, PagingFrom(d, today, replies[1..]))
      else if reply.zt == 2 then Done(Complete([]))
      else if reply.zt == 3 then Done(Abort(PasswordError))
      else if reply.zt == 4 then
        EndsLater(replies);
        PagingFrom(d, today, replies[1..])
      else Done(Abort(Failed))
  }

  /** The page loop. Also returns the page number of every request it made. */
  method FetchPages(d: Disguise, today: int, replies: seq<Option<FolderReply>>)
    returns (r: Outcome<Paging>, pages: seq<int>)
    requires Ends(replies)
    ensures r == PagingFrom(d, today, replies)
    ensures PagesRequested(replies, pages)
  {
    var page := 1;
    var files: seq<ShareFile> := [];
    var i := 0;
    pages := [1];
    assert replies[0..] == replies;
    AheadNothing(PagingFrom(d, today, replies));
    while true
      invariant 0 <= i < |replies| && Ends(replies[i..])
      invariant |pages| == i + 1 && pages[i] == page && PagesRequested(replies, pages)
      invariant Ahead(files, PagingFrom(d, today, replies[i..])) == PagingFrom(d, today, replies)
      decreases |replies| - i
    {
      PagingAt(d, today, replies, i);
      if replies[i].None? {
        r := Done(Abort(NetworkError));
        return;
      }
      var resp := replies[i].value;
      if resp.zt == 1 {
        var rest := PagingFrom(d, today, replies[i + 1..]);
        var raised;
        raised, files := TakePage(d, today, files, resp.rows, rest, PagingFrom(d, today, replies));
        if raised.Some? {
          r := Raised(raised.value);
          return;
        }
        page := page + 1;
      } else if resp.zt == 2 {
        assert files + [] == files;
        r := Done(Complete(files));
        return;
      } else if resp.zt == 3 {
        r := Done(Abort(PasswordError));
        return;
      } else if resp.zt != 4 {
        r := Done(Abort(Failed));
        return;
      }
      PagesExtend(replies, pages, page);
      i := i + 1;
      pages := pages + [page];
    }
  }

  /** `pages[k]` is the `pg` field of the `k`-th request: it starts at 1, and every request
      but the last was answered with a reply that continues the loop, moving to the next
      page only on `zt == 1`. */
  predicate PagesRequested(replies: seq<Option<FolderReply>>, pages: seq<int>) {
    1 <= |pages| <= |replies| && pages[0] == 1
    && forall k :: 0 <= k < |pages| - 1 ==>
      Continues(replies[k]) && pages[k + 1] == pages[k] + (if replies[k].value.zt == 1 then 1 else 0)
  }

  lemma PagesExtend(replies: seq<Option<FolderReply>>, pages: seq<int>, page: int)
    requires PagesRequested(replies, pages) && |pages| < |replies| && Continues(replies[|pages| - 1])
    requires page == pages[|pages| - 1] + (if replies[|pages| - 1].value.zt == 1 then 1 else 0)
    ensures PagesRequested(replies, pages + [page])
  {
  }

  /** The inner loop over the files of a `zt == 1` page: either one of them raises, or all of
      them are appended. */
  method TakePage(d: Disguise, today: int, files: seq<ShareFile>, rows: seq<RawShareFile>,
                  ghost rest: Outcome<Paging>, ghost whole: Outcome<Paging>)
    returns (raised: Option<Fault>, files': seq<ShareFile>)
    requires Ahead(files, PageThen(d, today, rows, rest)) == whole
    ensures raised.Some? ==> whole == Raised(raised.value)
    ensures raised.None? ==> Ahead(files', rest) == whole
  {
    files' := files;
    var j := 0;
    assert rows[0..] == rows;
    while j < |rows|
      invariant 0 <= j <= |rows|
      invariant Ahead(files', PageThen(d, today, rows[j..], rest)) == whole
      decreases |rows| - j
    {
      assert rows[j..][1..] == rows[j + 1..];
      var e := ShareEntry(d, today, rows[j]);
      if e.Raised? {
        return Some(e.fault), files';
      }
      AheadTwice(files', [e.value], PageThen(d, today, rows[j + 1..], rest));
      files' := files' + [e.value];
      j := j + 1;
    }
    assert rows[j..] == [];
    raised := None;
  }

  /** The loop's step: what the reply at `i` makes of the rest of the loop. */
  lemma PagingAt(d: Disguise, today: int, replies: seq<Option<FolderReply>>, i: nat)
    requires i < |replies| && Ends(replies[i..])
    ensures var r := PagingFrom(d, today, replies[i..]);
      if replies[i].None? then r == Done(Abort(NetworkError))
      else if replies[i].value.zt == 1 then
        Ends(replies[i + 1..]) && r == PageThen(d, today, replies[i].value.rows, PagingFrom(d, today, replies[i + 1..]))
      else if replies[i].value.zt == 2 then r == Done(Complete([]))
      else if replies[i].value.zt == 3 then r == Done(Abort(PasswordError))
      else if replies[i].value.zt == 4 then Ends(replies[i + 1..]) && r == PagingFrom(d, today, replies[i + 1..])
      else r == Done(Abort(Failed))
  {
    assert replies[i..][0] == replies[i];
    if Continues(replies[i]) {
      EndsLater(replies[i..]);
      assert replies[i..][1..] == replies[i + 1..];
    }
  }

  /** The text `_time_format` gave for a stamp. */
  function StampText(calendar: int -> string, s: Stamp): string
  {
    match s
    case Day(n) => calendar(n)
    case Text(t) => t
  }

  /** The folder's date: the year of the last (earliest) file with the month and day the page
      shows, or today's date for an empty folder. */
  function FolderTime(calendar: int -> string, today: int, files: seq<ShareFile>, shown: string): string
  {
    if files != [] then Split(StampText(calendar, files[|files| - 1].time), '-')[0] + "-" + shown
    else calendar(today)
  }

  /** Whether the checks before the page loop all pass. */
  predicate Paginates(shareUrl: string, pwd: string, site: FolderSite) {
    !IsFileUrl(shareUrl) && site.html.Some? && !Contains(site.html.value, Missing)
    && !(Contains(site.html.value, AskFolderPassword) && |pwd| == 0) && site.meta.Some?
  }

  /** The early returns, in the source's order. */
  function Precheck(shareUrl: string, pwd: string, site: FolderSite): (r: Option<Code>)
    ensures r.None? <==> Paginates(shareUrl, pwd, site)
  {
    if IsFileUrl(shareUrl) then Some(UrlInvalid)
    else if site.html.None? then Some(NetworkError)
    else if Contains(site.html.value, Missing) then Some(FileCancelled)
    else if Contains(site.html.value, AskFolderPassword) && |pwd| == 0 then Some(LackPassword)
    else if site.meta.None? then Some(Failed)
    else None
  }

  /** What the source returns once the page loop has ended. */
  function Assemble(calendar: int -> string, today: int, shareUrl: string, pwd: string, meta: FolderMeta,
                    paging: Outcome<Paging>): Outcome<FolderInfo>
  {
    match paging
    case Raised(f) => Raised(f)
    case Done(Abort(code)) => Done(NoFolder(code))
    case Done(Complete(files)) =>
      var folder := Folder(meta.name, meta.id, pwd, FolderTime(calendar, today, files, meta.time), meta.desc, shareUrl);
      Done(FolderInfo(Success, Some(folder), files))
  }

  /** `get_folder_info_by_url`. */
  function FolderInfoOf(d: Disguise, today: int, calendar: int -> string, shareUrl: string, pwd: string,
                        site: FolderSite): (r: Outcome<FolderInfo>)
    requires Paginates(shareUrl, pwd, site) ==> Ends(site.replies)
    ensures r.Done? && r.value.code != Success ==> r.value == NoFolder(r.value.code)
    ensures r.Done? && r.value.code == Success ==> (r.value.folder.Some?
      && r.value.folder.value.url == shareUrl && r.value.folder.value.pwd == pwd)
  {
    match Precheck(shareUrl, pwd, site)
    case Some(code) => Done(NoFolder(code))
    case None => Assemble(calendar, today, shareUrl, pwd, site.meta.value, PagingFrom(d, today, site.replies))
  }

  method GetFolderInfoByUrl(d: Disguise, today: int, calendar: int -> string, shareUrl: string, pwd: string,
                            site: FolderSite) returns (r: Outcome<FolderInfo>)
    requires Paginates(shareUrl, pwd, site) ==> Ends(site.replies)
    ensures r == FolderInfoOf(d, today, calendar, shareUrl, pwd, site)
  {
    var early := Precheck(shareUrl, pwd, site);
    if early.Some? {
      return Done(NoFolder(early.value));
    }
    var paging, _ := FetchPages(d, today, site.replies);
    r := Assemble(calendar, today, shareUrl, pwd, site.meta.value, paging);
  }

  // ---------------------------------------------------------------------------------------------
  // The page loop, one status at a time

  /** `zt == 1` puts that page's files, in order, in front of what the later pages give. */
  lemma PageAppends(d: Disguise, today: int, rows: seq<RawShareFile>, replies: seq<Option<FolderReply>>)
    requires Ends(replies)
    requires forall q :: 0 <= q < |rows| ==> ShareEntry(d, today, rows[q]).Done?
    ensures Ends([Some(FolderReply(1, rows))] + replies)
    ensures PagingFrom(d, today, [Some(FolderReply(1, rows))] + replies)
      == Ahead(Entries(d, today, rows), PagingFrom(d, today, replies))
  {
    var all := [Some(FolderReply(1, rows))] + replies;
    var k :| 0 <= k < |replies| && !Continues(replies[k]);
    assert all[k + 1] == replies[k];
    assert all[1..] == replies;
    PageEntries(d, today, rows, PagingFrom(d, today, replies));
  }

  function Entries(d: Disguise, today: int, rows: seq<RawShareFile>): (r: seq<ShareFile>)
    requires forall q :: 0 <= q < |rows| ==> ShareEntry(d, today, rows[q]).Done?
    ensures |r| == |rows|
    decreases |rows|
  {
    if rows == [] then []
    else [ShareEntry(d, today, rows[0]).value] + Entries(d, today, rows[1..])
  }

  lemma {:induction false} PageEntries(d: Disguise, today: int, rows: seq<RawShareFile>, rest: Outcome<Paging>)
    requires forall q :: 0 <= q < |rows| ==> ShareEntry(d, today, rows[q]).Done?
    ensures PageThen(d, today, rows, rest) == Ahead(Entries(d, today, rows), rest)
    decreases |rows|
  {
    if rows == [] {
      AheadNothing(rest);
    } else {
      var x := ShareEntry(d, today, rows[0]).value;
      assert ShareEntry(d, today, rows[0]) == Done(x);
      assert forall q :: 0 <= q < |rows[1..]| ==> ShareEntry(d, today, rows[1..][q]).Done? by {
        forall q | 0 <= q < |rows[1..]| ensures ShareEntry(d, today, rows[1..][q]).Done? {
          assert rows[1..][q] == rows[q + 1];
        }
      }
      PageEntries(d, today, rows[1..], rest);
      AheadTwice([x], Entries(d, today, rows[1..]), rest);
    }
  }

  /** `zt == 4` asks for the same page again and changes nothing else. */
  lemma RefreshRepeats(d: Disguise, today: int, rows: seq<RawShareFile>, replies: seq<Option<FolderReply>>)
    requires Ends(replies)
    ensures Ends([Some(FolderReply(4, rows))] + replies)
    ensures PagingFrom(d, today, [Some(FolderReply(4, rows))] + replies) == PagingFrom(d, today, replies)
  {
    var all := [Some(FolderReply(4, rows))] + replies;
    var k :| 0 <= k < |replies| && !Continues(replies[k]);
    assert all[k + 1] == replies[k];
    assert all[1..] == replies;
  }

  /** `zt == 2` ends the loop with the files gathered so far; 3 is a wrong code, anything else
      but 1 and 4 a failure, and a request that raised a network error. */
  lemma StatusesThatEnd(d: Disguise, today: int, reply: Option<FolderReply>, replies: seq<Option<FolderReply>>)
    requires !Continues(reply)
    ensures Ends([reply] + replies)
    ensures var r := PagingFrom(d, today, [reply] + replies);
      if reply.None? then r == Done(Abort(NetworkError))
      else if reply.value.zt == 2 then r == Done(Complete([]))
      else if reply.value.zt == 3 then r == Done(Abort(PasswordError))
      else r == Done(Abort(Failed))
  {
    assert ([reply] + replies)[0] == reply;
  }

  /** An early end discards the files gathered so far: the folder and the files come back empty. */
  lemma AbortDiscardsFiles(calendar: int -> string, today: int, shareUrl: string, pwd: string, meta: FolderMeta,
                           code: Code, xs: seq<ShareFile>)
    ensures Assemble(calendar, today, shareUrl, pwd, meta, Ahead(xs, Done(Abort(code)))) == Done(NoFolder(code))
  {
  }

  // ---------------------------------------------------------------------------------------------
  // The checks before the loop

  /** Only a file link is refused: a link of any other shape, a folder link or not, is fetched. */
  lemma OnlyFileLinksRefused(shareUrl: string, pwd: string, site: FolderSite)
    ensures Precheck(shareUrl, pwd, site) == Some(UrlInvalid) <==> IsFileUrl(shareUrl)
  {
  }

  /** The empty link is no share link of either kind, yet it is not refused: the page is
      requested, and a failed request is what reports it. */
  lemma NonShareLinkRequested(pwd: string, site: FolderSite)
    ensures !IsFileUrl("") && !IsFolderUrl("")
    ensures Precheck("", pwd, site) != Some(UrlInvalid)
    ensures site.html.None? ==> Precheck("", pwd, site) == Some(NetworkError)
  {
  }

  /** A missing folder is reported before the code check; the code is asked for only when none
      was given. */
  lemma FolderChecks(shareUrl: string, pwd: string, site: FolderSite)
    requires !IsFileUrl(shareUrl) && site.html.Some?
    ensures Contains(site.html.value, Missing) ==> Precheck(shareUrl, pwd, site) == Some(FileCancelled)
    ensures !Contains(site.html.value, Missing) && Contains(site.html.value, AskFolderPassword) ==>
      (Precheck(shareUrl, pwd, site) == Some(LackPassword) <==> |pwd| == 0)
  {
  }

  // ---------------------------------------------------------------------------------------------
  // The folder's date

  /** With files, the year comes from the last file's date; without, the date is today's. */
  lemma FolderYear(calendar: int -> string, today: int, files: seq<ShareFile>, shown: string, year: string, rest: string)
    requires files != [] && '-' !in year
    requires StampText(calendar, files[|files| - 1].time) == year + "-" + rest
    ensures FolderTime(calendar, today, files, shown) == year + "-" + shown
    ensures FolderTime(calendar, today, [], shown) == calendar(today)
  {
    SplitConcat(year, rest, '-');
    SplitNoSep(year, '-');
  }

  /** `get_folder_info_by_id`: the share info first; when that fails, its code. */
  function FolderInfoById(d: Disguise, today: int, calendar: int -> string, share: Outcome<ShareInfo>,
                          site: FolderSite): (r: Outcome<FolderInfo>)
    requires share.Done? && share.value.code == Success && Paginates(share.value.url, share.value.pwd, site)
      ==> Ends(site.replies)
    ensures share.Done? && share.value.code != Success ==> r == Done(NoFolder(share.value.code))
  {
    match share
    case Raised(f) => Raised(f)
    case Done(info) =>
      if info.code != Success then Done(NoFolder(info.code))
      else FolderInfoOf(d, today, calendar, info.url, info.pwd, site)
  }
}
