/** `is_file_url` / `is_folder_url`: full matches of the patterns
    `https?://www.lanzous.com/i[a-z0-9]{6,}/?` and `https?://www.lanzous.com/b[a-z0-9]{7,}/?`.
    The two dots of the host are unescaped, so each matches any character except a newline. */
module ShareUrl {
  import opened Strings

  const Host: string := "www.lanzous.com/"

  predicate IsShareChar(c: char) { IsAsciiLower(c) || IsAsciiDigit(c) }

  predicate AllShareChars(s: string) {
    forall i :: 0 <= i < |s| ==> IsShareChar(s[i])
  }

  /** Position `i` of the host part: a regex dot (any character but a newline) or a literal. */
  predicate HostCharMatches(h: string, i: nat)
    requires i < |h| && i < |Host|
  {
    if i == 3 || i == 11 then h[i] != '\n' else h[i] == Host[i]
  }

  predicate HostMatches(h: string) {
    |h| == |Host| && forall i :: 0 <= i < |Host| ==> HostCharMatches(h, i)
  }

  /** What follows the scheme, `https?://`; `None` when the text has neither scheme. */
  function AfterScheme(u: string): (r: Option<string>)
    ensures r.Some? ==> |r.value| < |u| && IsSuffix(r.value, u)
  {
    if IsPrefix("https://", u) then Some(u[8..])
    else if IsPrefix("http://", u) then Some(u[7..])
    else None
  }

  /** `[a-z0-9]{min,}/?` as a full match. */
  predicate IdMatches(b: string, min: nat) {
    (|b| >= min && AllShareChars(b))
    || (|b| >= min + 1 && b[|b| - 1] == '/' && AllShareChars(b[..|b| - 1]))
  }

  /** The shape both predicates share: scheme, host, a kind letter and an id of at least `min`
      characters. */
  predicate ShareShape(u: string, kind: char, min: nat) {
    match AfterScheme(u)
    case None => false
    case Some(rest) =>
      |rest| > |Host| && HostMatches(rest[..|Host|]) && rest[|Host|] == kind && IdMatches(rest[|Host| + 1..], min)
  }

  predicate IsFileUrl(u: string) { ShareShape(u, 'i', 6) }

  predicate IsFolderUrl(u: string) { ShareShape(u, 'b', 7) }

  /** The share link the site hands out for a file or folder id. */
  function ShareLink(kind: char, id: string): string
  {
    "https://" + Host + [kind] + id
  }

  /** No link is both a file link and a folder link: the character after the host is `i` in
      one pattern and `b` in the other. */
  lemma FileFolderExclusive(u: string)
    ensures !(IsFileUrl(u) && IsFolderUrl(u))
  {
  }

  /** Behind a matching host, the link is accepted exactly when its id matches. */
  lemma ShapeOfLink(h: string, kind: char, id: string, min: nat)
    requires HostMatches(h)
    ensures ShareShape("https://" + h + [kind] + id, kind, min) <==> IdMatches(id, min)
  {
    var u := "https://" + h + [kind] + id;
    assert u[..8] == "https://";
    var rest := u[8..];
    assert rest == h + [kind] + id;
    assert rest[..|Host|] == h && rest[|Host|] == kind && rest[|Host| + 1..] == id;
  }

  lemma HostMatchesItself()
    ensures HostMatches(Host)
  {
  }

  /** Every id of at least six share characters makes a file link, with or without a final `/`,
      and it is not a folder link. */
  lemma FileLinkAccepted(id: string)
    requires |id| >= 6 && AllShareChars(id)
    ensures IsFileUrl(ShareLink('i', id)) && !IsFolderUrl(ShareLink('i', id))
    ensures IsFileUrl(ShareLink('i', id + "/"))
  {
    HostMatchesItself();
    ShapeOfLink(Host, 'i', id, 6);
    ShapeOfLink(Host, 'i', id + "/", 6);
    assert (id + "/")[..|id|] == id;
    FileFolderExclusive(ShareLink('i', id));
  }

  /** Folder links need seven id characters: a six-character id is refused. */
  lemma FolderLinkLength(id: string)
    requires AllShareChars(id)
    ensures IsFolderUrl(ShareLink('b', id)) <==> |id| >= 7
  {
    HostMatchesItself();
    ShapeOfLink(Host, 'b', id, 7);
    if |id| > 0 {
      assert IsShareChar(id[|id| - 1]);
    }
  }

  /** An id with an upper-case letter is refused. */
  lemma UpperCaseRefused(id: string, i: nat)
    requires i < |id| && 'A' <= id[i] <= 'Z'
    ensures !IsFileUrl(ShareLink('i', id)) && !IsFolderUrl(ShareLink('b', id))
  {
    HostMatchesItself();
    ShapeOfLink(Host, 'i', id, 6);
    ShapeOfLink(Host, 'b', id, 7);
    assert !IsShareChar(id[i]);
    if |id| >= 1 && id[|id| - 1] == '/' {
      assert i < |id| - 1;
      assert id[..|id| - 1][i] == id[i];
    }
  }

  /** Because its dots are unescaped, the pattern accepts hosts that are not `www.lanzous.com`. */
  lemma DotsMatchAnyCharacter()
    ensures IsFileUrl("https://" + "wwwxlanzousxcom/" + ['i'] + "abc123")
  {
    LookalikeHost();
    assert AllShareChars("abc123");
    ShapeOfLink("wwwxlanzousxcom/", 'i', "abc123", 6);
  }

  lemma LookalikeHost()
    ensures HostMatches("wwwxlanzousxcom/")
  {
    assert "wwwxlanzousxcom/" == ['w', 'w', 'w', 'x', 'l', 'a', 'n', 'z', 'o', 'u', 's', 'x', 'c', 'o', 'm', '/'];
  }
}
