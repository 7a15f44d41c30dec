/** `get_file_info_by_url` and the calls built on it (`get_file_info_by_id`, `get_durl_by_url`,
    `get_durl_by_id`): from a file's share link to its details and direct download link. Every
    request's answer is an input: the page texts (with their notes already removed), the
    fields the scraping patterns capture, the decoded `ajaxm.php` replies and, as a function of
    the requested link, the redirect the last request receives. */
module Resolver {
  import opened Strings
  import opened Codes
  import opened NameCodec
  import opened Times
  import opened ShareUrl
  import opened Listing

  /** A decoded `ajaxm.php` reply; `inf` is the file name, absent from some replies. */
  datatype LinkInfo = LinkInfo(zt: int, dom: string, url: string, inf: Option<string>)

  /** What the request for the pre-redirect link gets: no response at all, a response without a
      `Location` header, or the direct link. */
  datatype Redirect = NoReply | NoLocation | Location(target: string)

  /** Size, upload time and description as scraped from a page. */
  datatype Scraped = Scraped(size: string, time: string, desc: string)

  /** The answers the site gives, in the order the source asks.
      With an extraction code: `signReply` to the sign POST, then the share page again
      (`secondPage`, where `secondFields` are found).
      Without one: `pageName` and `pageFields` scraped from the first page, then the frame page
      and `frameReply` to the POST built from it. */
  datatype FileSite = FileSite(
    firstPage: Option<string>,
    signReply: Option<LinkInfo>, secondPage: Option<string>, secondFields: Scraped,
    pageName: string, pageFields: Scraped, framePage: Option<string>, frameReply: Option<LinkInfo>,
    redirect: string -> Redirect)

  datatype FileInfo = FileInfo(code: Code, name: string, size: string, ftype: string, time: Stamp,
                               desc: string, pwd: string, url: string, durl: string)

  function NoFile(code: Code): FileInfo { FileInfo(code, "", "", "", Text(""), "", "", "", "") }

  const Cancelled: string := "文件取消"
  const AskPassword: string := "输入密码"

  /** The link the direct link is fetched from. */
  function FakeUrl(link: LinkInfo): string { link.dom + "/file/" + link.url }

  /** The common end of both branches: `zt == 1` gives the details, anything else a wrong
      code. The direct link is read first, then the name is restored, then the time converted. */
  function Finish(d: Disguise, today: int, shareUrl: string, pwd: string, link: LinkInfo, name: string,
                  fields: Scraped, redirect: string -> Redirect): (r: Outcome<FileInfo>)
    ensures r.Done? && r.value.code != Success ==> r.value == NoFile(PasswordError) && link.zt != 1
    ensures r.Done? && r.value.code == Success ==> (link.zt == 1
      && redirect(FakeUrl(link)) == Location(r.value.durl)
      && r.value.url == shareUrl && r.value.pwd == pwd && r.value.size == fields.size
      && r.value.desc == fields.desc && '.' in r.value.name)
  {
    if link.zt != 1 then Done(NoFile(PasswordError))
    else match redirect(FakeUrl(link))
      case NoReply => Raised(NoResponseObject)
      case NoLocation => Raised(MissingKey)
      case Location(durl) =>
        if '.' !in name && '#' !in name then Raised(IndexOutOfRange)
        else
          var (n, t) := RightName(d, name);
          match TimeFormat(today, fields.time)
          case Raised(f) => Raised(f)
          case Done(time) => Done(FileInfo(Success, n, fields.size, t, time, fields.desc, pwd, shareUrl, durl))
  }

  /** `get_file_info_by_url`. */
  function FileInfoByUrl(d: Disguise, today: int, shareUrl: string, pwd: string, site: FileSite)
    : (r: Outcome<FileInfo>)
    ensures r.Done? && r.value.code != Success ==> r.value == NoFile(r.value.code)
  {
    if !IsFileUrl(shareUrl) then Done(NoFile(UrlInvalid))
    else match site.firstPage
      case None => Done(NoFile(NetworkError))
      case Some(page) =>
        if Contains(page, Cancelled) then Done(NoFile(FileCancelled))
        else if Contains(page, AskPassword) then
          if |pwd| == 0 then Done(NoFile(LackPassword))
          else match site.signReply
            case None => Done(NoFile(NetworkError))
            case Some(link) =>
              match site.secondPage
              case None => Raised(NoResponseObject)
              case Some(second) =>
                if second == "" then Done(NoFile(NetworkError))
                else match link.inf
                  case None => Raised(MissingKey)
                  case Some(name) => Finish(d, today, shareUrl, pwd, link, name, site.secondFields, site.redirect)
        else match site.framePage
          case None => Done(NoFile(NetworkError))
          case Some(_) =>
            match site.frameReply
            case None => Done(NoFile(NetworkError))
            case Some(link) => Finish(d, today, shareUrl, pwd, link, site.pageName, site.pageFields, site.redirect)
  }

  /** The reply whose `zt` decides the result, when the chain gets that far. */
  function Deciding(page: string, site: FileSite): Option<LinkInfo>
  {
    if Contains(page, AskPassword) then site.signReply else site.frameReply
  }

  /** A link that is not a file link is refused before any request: whatever the site would
      answer, the result is `URL_INVALID` with every field empty. */
  lemma UrlCheckedFirst(d: Disguise, today: int, shareUrl: string, pwd: string, site: FileSite)
    requires !IsFileUrl(shareUrl)
    ensures FileInfoByUrl(d, today, shareUrl, pwd, site) == Done(NoFile(UrlInvalid))
  {
  }

  /** A cancelled share is reported as such even when its page also asks for a code, and even
      when no code was given. */
  lemma CancelledBeforePassword(d: Disguise, today: int, shareUrl: string, pwd: string, site: FileSite)
    requires IsFileUrl(shareUrl) && site.firstPage.Some? && Contains(site.firstPage.value, Cancelled)
    ensures FileInfoByUrl(d, today, shareUrl, pwd, site) == Done(NoFile(FileCancelled))
  {
  }

  /** A page asking for a code without one given gives `LACK_PASSWORD`: the sign POST and the
      later requests are not made, since their answers do not matter. */
  lemma LackPasswordBeforeSign(d: Disguise, today: int, shareUrl: string, site: FileSite, other: FileSite)
    requires IsFileUrl(shareUrl) && site.firstPage.Some? && !Contains(site.firstPage.value, Cancelled)
    requires Contains(site.firstPage.value, AskPassword)
    requires other.firstPage == site.firstPage
    ensures FileInfoByUrl(d, today, shareUrl, "", site) == Done(NoFile(LackPassword))
    ensures FileInfoByUrl(d, today, shareUrl, "", other) == Done(NoFile(LackPassword))
  {
  }

  /** Success means the deciding reply had `zt == 1`, the direct link is the `Location` of
      `dom + '/file/' + url`, and the link and code given are echoed back. */
  lemma SuccessDirectLink(d: Disguise, today: int, shareUrl: string, pwd: string, site: FileSite)
    requires FileInfoByUrl(d, today, shareUrl, pwd, site).Done?
    requires FileInfoByUrl(d, today, shareUrl, pwd, site).value.code == Success
    ensures IsFileUrl(shareUrl) && site.firstPage.Some?
    ensures var link := Deciding(site.firstPage.value, site);
      var r := FileInfoByUrl(d, today, shareUrl, pwd, site).value;
      link.Some? && link.value.zt == 1
      && site.redirect(FakeUrl(link.value)) == Location(r.durl)
      && r.url == shareUrl && r.pwd == pwd && '.' in r.name
  {
  }

  /** Once the deciding reply is in, any `zt` other than 1 is a wrong code. */
  lemma OtherStatusIsPasswordError(d: Disguise, today: int, shareUrl: string, pwd: string, site: FileSite)
    requires IsFileUrl(shareUrl) && site.firstPage.Some? && !Contains(site.firstPage.value, Cancelled)
    requires Contains(site.firstPage.value, AskPassword) ==>
      |pwd| > 0 && site.secondPage.Some? && site.secondPage.value != ""
      && site.signReply.Some? && site.signReply.value.inf.Some?
    requires !Contains(site.firstPage.value, AskPassword) ==> site.framePage.Some?
    requires Deciding(site.firstPage.value, site).Some? && Deciding(site.firstPage.value, site).value.zt != 1
    ensures FileInfoByUrl(d, today, shareUrl, pwd, site) == Done(NoFile(PasswordError))
  {
  }

  /** `get_durl_by_url`: the code, and on success the name and direct link only. */
  datatype Durl = Durl(code: Code, name: string, durl: string)

  function DurlByUrl(d: Disguise, today: int, shareUrl: string, pwd: string, site: FileSite): (r: Outcome<Durl>)
    ensures r.Raised? <==> FileInfoByUrl(d, today, shareUrl, pwd, site).Raised?
    ensures r.Done? ==> r.value.code == FileInfoByUrl(d, today, shareUrl, pwd, site).value.code
    ensures r.Done? && r.value.code != Success ==> r.value.name == "" && r.value.durl == ""
  {
    match FileInfoByUrl(d, today, shareUrl, pwd, site)
    case Raised(f) => Raised(f)
    case Done(info) =>
      if info.code != Success then Done(Durl(info.code, "", ""))
      else Done(Durl(Success, info.name, info.durl))
  }

  /** `get_file_info_by_id`: the share info first; when that fails, its code. */
  function FileInfoById(d: Disguise, today: int, share: Outcome<ShareInfo>, site: FileSite): (r: Outcome<FileInfo>)
    ensures share.Done? && share.value.code != Success ==> r == Done(NoFile(share.value.code))
  {
    match share
    case Raised(f) => Raised(f)
    case Done(info) =>
      if info.code != Success then Done(NoFile(info.code))
      else FileInfoByUrl(d, today, info.url, info.pwd, site)
  }

  /** `get_durl_by_id`: the share info's link and code are passed on without looking at its
      code. */
  function DurlById(d: Disguise, today: int, share: Outcome<ShareInfo>, site: FileSite): (r: Outcome<Durl>)
  {
    match share
    case Raised(f) => Raised(f)
    case Done(info) => DurlByUrl(d, today, info.url, info.pwd, site)
  }

  lemma EmptyNotFileUrl()
    ensures !IsFileUrl("")
  {
  }

  /** So a failed share-info request is reported by `get_durl_by_id` as `URL_INVALID`, not
      with the share info's own code: the empty link it carries is not a file link. */
  lemma DurlByIdMasksShareError(d: Disguise, today: int, code: Code, site: FileSite)
    requires code != Success
    ensures DurlById(d, today, Done(NoShare(code)), site) == Done(Durl(UrlInvalid, "", ""))
  {
    EmptyNotFileUrl();
    assert NoShare(code).url == "";
  }
}
