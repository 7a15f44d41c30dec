/** Filename sanitising and the reversible disguise the client puts on names before uploading
    (`_name_format`, `_get_confused_name`, `_get_right_name`). */
module NameCodec {
  import opened Strings

  /** The characters `_name_format` deletes. `#` is among them, which frees it to stand in for
      `.` in disguised names. */
  const Illegal: set<char> :=
    {'#', '$', '%', '^', '!', '*', '<', '>', ')', '(', '+', '=', '`', '\'', '"', '/', ':', ';', ',', '?'}

  predicate Legal(c: char) { c !in Illegal }

  predicate IsSubsequence(r: string, s: string)
    decreases |s|
  {
    r == [] || (s != [] && ((r[0] == s[0] && IsSubsequence(r[1..], s[1..])) || IsSubsequence(r, s[1..])))
  }

  /** `_name_format`: delete every illegal character. */
  function NameFormat(name: string): (r: string)
    ensures |r| <= |name|
    ensures forall i :: 0 <= i < |r| ==> Legal(r[i])
    decreases |name|
  {
    if name == [] then []
    else if Legal(name[0]) then [name[0]] + NameFormat(name[1..])
    else NameFormat(name[1..])
  }

  /** What the client instance fixes at construction: the disguise extension (`dll`) and the
      random token that replaces `part` in archive-volume names. */
  datatype Disguise = Disguise(suffix: string, token: string)

  /** The token is five ASCII lower-case letters (`sample` of the alphabet). */
  predicate ValidToken(token: string) { |token| == 5 && AllLower(token) }

  /** A disguise extension that cannot be confused with the separators or the space rewriting. */
  predicate PlainSuffix(suffix: string) {
    '.' !in suffix && '#' !in suffix && SpaceFree(suffix) && suffix != "rar"
  }

  const DefaultSuffix: string := "dll"

  /** Extensions the service accepts as they are (the source keeps them in a list and only tests
      membership). */
  const ValidSuffixes: set<string> :=
    {"doc", "docx", "zip", "rar", "apk", "ipa", "txt", "exe", "7z", "e", "z", "ct",
     "ke", "cetrainer", "db", "tar", "pdf", "w3x", "epub", "mobi", "azw", "azw3",
     "osk", "osz", "xpa", "cpk", "lua", "jar", "dmg", "ppt", "pptx", "xls", "xlsx",
     "mp3", "iso", "img", "gho", "ttf", "ttc", "txf", "dwg", "bat", "dll"}

  /** `re.match(r"part\d+", sub)`: anchored at the start only. */
  predicate IsPartTag(sub: string) {
    |sub| >= 5 && sub[..4] == "part" && IsAsciiDigit(sub[4])
  }

  /** `re.match(r"[a-z]+\d+", sub)`. Because `[a-z]+` must be followed by a digit, only the
      longest run of letters can succeed. */
  predicate IsVolumeTag(sub: string) {
    var n := LowerRun(sub);
    0 < n < |sub| && IsAsciiDigit(sub[n])
  }

  /** `re.sub(r"[a-z]+(\d+)", r"part\1", sub)`: every run of letters followed by digits becomes
      `part` and the digits, scanning left to right. */
  function RestorePart(s: string): string
    decreases |s|
  {
    if s == [] then []
    else
      var l := LowerRun(s);
      var k := DigitRun(s[l..]);
      if l > 0 && k > 0 then "part" + s[l..l + k] + RestorePart(s[l + k..])
      else [s[0]] + RestorePart(s[1..])
  }

  predicate SpaceFree(s: string) { '\U{A0}' !in s && '\U{3000}' !in s }

  /** The two replacements of U+00A0 and U+3000 by a plain space. */
  function NormalizeSpaces(s: string): (r: string)
    ensures |r| == |s|
  {
    seq(|s|, i requires 0 <= i < |s| => if s[i] == '\U{A0}' || s[i] == '\U{3000}' then ' ' else s[i])
  }

  /** `_get_confused_name`. The source indexes `fn_list[-2]`, so a name without a `.` raises. */
  function ConfusedName(d: Disguise, filename: string): string
    requires '.' in filename
  {
    NameFormatKeeps(filename, '.');
    SplitHasSep(NameFormat(filename), '.');
    Disguised(d, Split(NameFormat(filename), '.'), filename)
  }

  /** `_get_confused_name` once the sanitised name is split at `.`: an archive volume
      `...partN.rar` has `part` replaced by the token and its other separators encoded as `#`;
      otherwise an unlisted extension makes way for the disguise extension, and a listed one keeps
      the name as given, unsanitised. */
  function Disguised(d: Disguise, parts: seq<string>, filename: string): string
    requires |parts| >= 2
  {
    var n := |parts|;
    var suffix, sub := parts[n - 1], parts[n - 2];
    var guised := if suffix !in ValidSuffixes then Join('#', parts[..n - 1]) + "." + d.suffix else filename;
    if suffix == "rar" && IsPartTag(sub) then
      Join('#', parts[..n - 2]) + "." + ReplaceAll(sub, "part", d.token) + "." + suffix
    else guised
  }

  lemma SeparatorSurvives(filename: string)
    requires '.' in filename || '#' in filename
    ensures '.' in ReplaceChar(NormalizeSpaces(filename), '#', '.')
  {
    var i :| 0 <= i < |filename| && (filename[i] == '.' || filename[i] == '#');
    assert ReplaceChar(NormalizeSpaces(filename), '#', '.')[i] == '.';
  }

  /** `_get_right_name`: the restored name and the lower-cased last component. The source
      indexes `fn_list[-2]`, so a name without `.` or `#` raises. */
  function RightName(d: Disguise, filename: string): (r: (string, string))
    requires '.' in filename || '#' in filename
    ensures '.' in r.0
  {
    var s := NormalizeSpaces(filename);
    SeparatorSurvives(filename);
    SplitHasSep(ReplaceChar(s, '#', '.'), '.');
    Undisguised(d, s, Split(ReplaceChar(s, '#', '.'), '.'))
  }

  /** `_get_right_name` once the space-normalised name `s` is split at `.` and `#`: the disguise
      extension is dropped, a `<letters><digits>.rar` volume gets `part` back, and a name left
      without any `.` gets the disguise extension. */
  function Undisguised(d: Disguise, s: string, parts: seq<string>): (r: (string, string))
    requires |parts| >= 2
    ensures '.' in r.0
  {
    var n := |parts|;
    var suffix, sub := parts[n - 1], parts[n - 2];
    var unguised := if suffix == d.suffix then Join('.', parts[..n - 1]) else s;
    var restored := if suffix == "rar" && IsVolumeTag(sub) then
        Join('.', parts[..n - 2]) + "." + RestorePart(sub) + "." + suffix
      else unguised;
    var named := if '.' in restored then restored else restored + "." + d.suffix;
    assert '.' !in restored ==> named[|restored|] == '.';
    (named, Lower(suffix))
  }

  /** The evidently intended `_get_confused_name`: an unlisted extension is kept as one more
      `#`-separated component instead of being dropped. */
  function ConfusedNameIntended(d: Disguise, filename: string): string
    requires '.' in filename
  {
    NameFormatKeeps(filename, '.');
    SplitHasSep(NameFormat(filename), '.');
    DisguisedIntended(d, Split(NameFormat(filename), '.'), filename)
  }

  function DisguisedIntended(d: Disguise, parts: seq<string>, filename: string): string
    requires |parts| >= 2
  {
    var n := |parts|;
    var suffix, sub := parts[n - 1], parts[n - 2];
    var guised := if suffix !in ValidSuffixes then Join('#', parts) + "." + d.suffix else filename;
    if suffix == "rar" && IsPartTag(sub) then
      Join('#', parts[..n - 2]) + "." + ReplaceAll(sub, "part", d.token) + "." + suffix
    else guised
  }

  // ---------------------------------------------------------------------------------------------
  // Sanitising

  lemma {:induction false} NameFormatClean(s: string)
    requires forall i :: 0 <= i < |s| ==> Legal(s[i])
    ensures NameFormat(s) == s
    decreases |s|
  {
    if s != [] {
      NameFormatClean(s[1..]);
      assert [s[0]] + s[1..] == s;
    }
  }

  /** Sanitising twice is sanitising once. */
  lemma NameFormatIdempotent(s: string)
    ensures NameFormat(NameFormat(s)) == NameFormat(s)
  {
    NameFormatClean(NameFormat(s));
  }

  lemma {:induction false} NameFormatConcat(a: string, b: string)
    ensures NameFormat(a + b) == NameFormat(a) + NameFormat(b)
    decreases |a|
  {
    if a == [] {
      assert a + b == b;
    } else {
      assert (a + b)[0] == a[0];
      assert (a + b)[1..] == a[1..] + b;
      NameFormatConcat(a[1..], b);
    }
  }

  /** A name is left alone exactly when it has no illegal character. */
  lemma NameFormatFixedPoint(s: string)
    ensures NameFormat(s) == s <==> forall i :: 0 <= i < |s| ==> Legal(s[i])
  {
    if forall i :: 0 <= i < |s| ==> Legal(s[i]) {
      NameFormatClean(s);
    }
  }

  lemma NameFormatLacksIllegal(name: string, x: char)
    requires !Legal(x)
    ensures x !in NameFormat(name)
  {
    var r := NameFormat(name);
    assert forall i :: 0 <= i < |r| ==> r[i] != x;
  }

  /** Only illegal characters are deleted: the result is a subsequence of the name, and each legal
      character occurs in it as often as in the name. */
  lemma {:induction false} NameFormatDeletesOnlyIllegal(name: string, c: char)
    requires Legal(c)
    ensures IsSubsequence(NameFormat(name), name)
    ensures CountChar(NameFormat(name), c) == CountChar(name, c)
    decreases |name|
  {
    if name != [] {
      NameFormatDeletesOnlyIllegal(name[1..], c);
    }
  }

  /** A legal character survives sanitising exactly when it was there. */
  lemma {:induction false} NameFormatKeeps(name: string, c: char)
    requires Legal(c)
    ensures c in NameFormat(name) <==> c in name
    decreases |name|
  {
    if name != [] {
      NameFormatKeeps(name[1..], c);
      assert name == [name[0]] + name[1..];
    }
  }

  // ---------------------------------------------------------------------------------------------
  // Helpers about clean names and their components

  /** The `.`-components of a name without `#` and without special spaces have neither. */
  lemma CleanParts(f: string, parts: seq<string>)
    requires parts == Split(f, '.') && '#' !in f && SpaceFree(f)
    ensures forall i :: 0 <= i < |parts| ==> '#' !in parts[i] && '.' !in parts[i] && SpaceFree(parts[i])
  {
    SplitPartsLack(f, '.');
    SplitPartsLackChar(f, '.', '#');
    SplitPartsLackChar(f, '.', '\U{A0}');
    SplitPartsLackChar(f, '.', '\U{3000}');
  }

  lemma NormalizeNothing(s: string)
    requires SpaceFree(s)
    ensures NormalizeSpaces(s) == s
  {
  }

  /** `#`-joining components free of `#`, `.` and special spaces, then decoding the separators,
      gives back the `.`-joined name. */
  lemma {:induction false} JoinedSpaceFree(parts: seq<string>, c: char)
    requires forall i :: 0 <= i < |parts| ==> SpaceFree(parts[i])
    requires c != '\U{A0}' && c != '\U{3000}'
    ensures SpaceFree(Join(c, parts))
  {
    JoinHasNoChar(parts, c, '\U{A0}');
    JoinHasNoChar(parts, c, '\U{3000}');
  }

  /** Decoding `a.t`, with `t` free of `#` and neither part holding a special space: the space
      rewriting changes nothing and the `#` rewriting acts on `a` alone. */
  lemma DecodeSeparators(a: string, t: string, g: string)
    requires SpaceFree(a) && SpaceFree(t) && '#' !in t
    requires g == a + ['.'] + t
    ensures NormalizeSpaces(g) == g
    ensures ReplaceChar(g, '#', '.') == ReplaceChar(a, '#', '.') + ['.'] + t
  {
    NormalizeNothing(g);
    ReplaceConcat(a + ['.'], t, '#', '.');
    ReplaceConcat(a, ['.'], '#', '.');
    ReplaceNothing(['.'], '#', '.');
    ReplaceNothing(t, '#', '.');
  }

  lemma {:induction false} LowerRunExact(a: string, b: string)
    requires AllLower(a)
    requires b == [] || !IsAsciiLower(b[0])
    ensures LowerRun(a + b) == |a|
    decreases |a|
  {
    if a == [] {
      assert a + b == b;
    } else {
      assert (a + b)[0] == a[0];
      assert (a + b)[1..] == a[1..] + b;
      LowerRunExact(a[1..], b);
    }
  }

  lemma {:induction false} DigitRunAll(a: string)
    requires AllDigits(a)
    ensures DigitRun(a) == |a|
    decreases |a|
  {
    if a != [] {
      DigitRunAll(a[1..]);
    }
  }

  /** The decoder turns `<token><digits>` back into `part<digits>`. */
  lemma RestoreTokenVolume(token: string, digits: string)
    requires ValidToken(token) && AllDigits(digits) && digits != []
    ensures IsVolumeTag(token + digits)
    ensures RestorePart(token + digits) == "part" + digits
  {
    var s := token + digits;
    LowerRunExact(token, digits);
    assert s[5..] == digits;
    DigitRunAll(digits);
    assert s[5..5 + |digits|] == digits;
    assert s[5 + |digits|..] == [];
  }

  /** The encoder turns `part<digits>` into `<token><digits>`. */
  lemma ReplacePartTag(token: string, digits: string)
    requires AllDigits(digits) && digits != []
    ensures IsPartTag("part" + digits)
    ensures ReplaceAll("part" + digits, "part", token) == token + digits
  {
    var p := "part" + digits;
    assert p[..4] == "part" && p[4..] == digits && p[4] == digits[0];
    assert 'p' !in digits by {
      forall i | 0 <= i < |digits| ensures digits[i] != 'p' {
        assert IsAsciiDigit(digits[i]);
      }
    }
    ReplaceAllSkip(digits, [], "part", token);
    assert digits + [] == digits;
    ReplaceAllShort([], "part", token);
  }

  // ---------------------------------------------------------------------------------------------
  // The encoder and the decoder on components

  /** A component that the encoder and the decoder treat as one piece. */
  predicate Clean(x: string) { '.' !in x && '#' !in x && SpaceFree(x) }

  predicate AllClean(parts: seq<string>) { forall i :: 0 <= i < |parts| ==> Clean(parts[i]) }

  lemma DisguisedListed(d: Disguise, parts: seq<string>, f: string)
    requires |parts| >= 2 && parts[|parts| - 1] in ValidSuffixes
    requires !(parts[|parts| - 1] == "rar" && IsPartTag(parts[|parts| - 2]))
    ensures Disguised(d, parts, f) == f
  {
  }

  lemma DisguisedUnlisted(d: Disguise, parts: seq<string>, f: string)
    requires |parts| >= 2 && parts[|parts| - 1] !in ValidSuffixes
    ensures Disguised(d, parts, f) == Join('#', parts[..|parts| - 1]) + ['.'] + d.suffix
  {
  }

  lemma DisguisedVolume(d: Disguise, parts: seq<string>, f: string)
    requires |parts| >= 2 && parts[|parts| - 1] == "rar" && IsPartTag(parts[|parts| - 2])
    ensures Disguised(d, parts, f) ==
      Join('#', parts[..|parts| - 2]) + ['.'] + ReplaceAll(parts[|parts| - 2], "part", d.token) + ['.'] + "rar"
  {
  }

  lemma DisguisedIntendedUnlisted(d: Disguise, parts: seq<string>, f: string)
    requires |parts| >= 2 && parts[|parts| - 1] !in ValidSuffixes
    ensures DisguisedIntended(d, parts, f) == Join('#', parts) + ['.'] + d.suffix
  {
  }

  /** Decoding a name whose extension is the disguise one: the extension is dropped. */
  lemma UndisguisedOwnSuffix(d: Disguise, s: string, parts: seq<string>)
    requires |parts| >= 2 && parts[|parts| - 1] == d.suffix && d.suffix != "rar"
    ensures var b := Join('.', parts[..|parts| - 1]);
      Undisguised(d, s, parts) == (if '.' in b then b else b + "." + d.suffix, Lower(d.suffix))
  {
  }

  /** Decoding a name with any other extension that is not a volume: the name is kept. */
  lemma UndisguisedOther(d: Disguise, s: string, parts: seq<string>)
    requires |parts| >= 2 && '.' in s && parts[|parts| - 1] != d.suffix
    requires !(parts[|parts| - 1] == "rar" && IsVolumeTag(parts[|parts| - 2]))
    ensures Undisguised(d, s, parts) == (s, Lower(parts[|parts| - 1]))
  {
  }

  lemma UndisguisedVolume(d: Disguise, s: string, parts: seq<string>)
    requires |parts| >= 2 && parts[|parts| - 1] == "rar" && IsVolumeTag(parts[|parts| - 2])
    ensures Undisguised(d, s, parts).0 == Join('.', parts[..|parts| - 2]) + "." + RestorePart(parts[|parts| - 2]) + ".rar"
    ensures Undisguised(d, s, parts).1 == "rar"
  {
    var r := Join('.', parts[..|parts| - 2]) + "." + RestorePart(parts[|parts| - 2]) + ".rar";
    assert r[|r| - 4] == '.';
  }

  /** The encoder on a sanitised name works on its `.`-components. */
  lemma ConfusedNameClean(d: Disguise, f: string)
    requires NameFormat(f) == f && '.' in f
    ensures |Split(f, '.')| >= 2
    ensures ConfusedName(d, f) == Disguised(d, Split(f, '.'), f)
  {
    SplitHasSep(f, '.');
  }

  /** The decoder on a name untouched by the space rewriting works on its components. */
  lemma RightNameDecoded(d: Disguise, g: string, parts: seq<string>)
    requires NormalizeSpaces(g) == g && '.' in g
    requires Split(ReplaceChar(g, '#', '.'), '.') == parts
    ensures |parts| >= 2
    ensures RightName(d, g) == Undisguised(d, g, parts)
  {
    SeparatorSurvives(g);
    SplitHasSep(ReplaceChar(g, '#', '.'), '.');
  }

  /** The components of a sanitised name without special spaces are clean. */
  lemma SanitisedClean(f: string)
    requires NameFormat(f) == f && SpaceFree(f)
    ensures '#' !in f
    ensures AllClean(Split(f, '.'))
  {
    NameFormatLacksIllegal(f, '#');
    CleanParts(f, Split(f, '.'));
  }

  /** A sanitised name without special spaces is decoded as it is split. */
  lemma RightNameClean(d: Disguise, f: string)
    requires NameFormat(f) == f && SpaceFree(f) && '.' in f
    ensures |Split(f, '.')| >= 2
    ensures RightName(d, f) == Undisguised(d, f, Split(f, '.'))
  {
    NameFormatLacksIllegal(f, '#');
    NormalizeNothing(f);
    ReplaceNothing(f, '#', '.');
    RightNameDecoded(d, f, Split(f, '.'));
  }

  /** Decoding `s1#...#sk.t1. ... .tm`: the name is unchanged by the space rewriting and its
      components are `s1, ..., sk, t1, ..., tm`. */
  lemma DecodeHashJoined(stems: seq<string>, tail: seq<string>, g: string)
    requires |stems| >= 1 && |tail| >= 1 && AllClean(stems) && AllClean(tail)
    requires g == Join('#', stems) + ['.'] + Join('.', tail)
    ensures '.' in g
    ensures NormalizeSpaces(g) == g
    ensures Split(ReplaceChar(g, '#', '.'), '.') == stems + tail
  {
    assert g[|Join('#', stems)|] == '.';
    HashToDot(stems, tail, g);
    SplitJoinedPieces(stems, tail);
  }

  lemma HashToDot(stems: seq<string>, tail: seq<string>, g: string)
    requires |stems| >= 1 && |tail| >= 1 && AllClean(stems) && AllClean(tail)
    requires g == Join('#', stems) + ['.'] + Join('.', tail)
    ensures NormalizeSpaces(g) == g
    ensures ReplaceChar(g, '#', '.') == Join('.', stems + tail)
  {
    HashesDecoded(stems, tail, g);
    JoinAppend(stems, tail, '.');
  }

  lemma HashesDecoded(stems: seq<string>, tail: seq<string>, g: string)
    requires |stems| >= 1 && AllClean(stems) && AllClean(tail)
    requires g == Join('#', stems) + ['.'] + Join('.', tail)
    ensures NormalizeSpaces(g) == g
    ensures ReplaceChar(g, '#', '.') == Join('.', stems) + ['.'] + Join('.', tail)
  {
    CleanDotted(tail);
    JoinedSpaceFree(stems, '#');
    JoinReplace(stems, '#', '.');
    DecodeSeparators(Join('#', stems), Join('.', tail), g);
  }

  lemma CleanDotted(tail: seq<string>)
    requires AllClean(tail)
    ensures '#' !in Join('.', tail) && SpaceFree(Join('.', tail))
  {
    JoinHasNoChar(tail, '.', '#');
    JoinedSpaceFree(tail, '.');
  }

  lemma SplitJoinedPieces(stems: seq<string>, tail: seq<string>)
    requires |stems| >= 1 && AllClean(stems) && AllClean(tail)
    ensures Split(Join('.', stems + tail), '.') == stems + tail
  {
    PiecesClean(stems, tail);
    SplitJoin(stems + tail, '.');
  }

  lemma PiecesClean(a: seq<string>, b: seq<string>)
    requires AllClean(a) && AllClean(b)
    ensures AllClean(a + b)
    ensures forall i :: 0 <= i < |a + b| ==> '.' !in (a + b)[i]
  {
    var all := a + b;
    forall i | 0 <= i < |all| ensures Clean(all[i]) {
      if i < |a| { assert all[i] == a[i]; } else { assert all[i] == b[i - |a|]; }
    }
  }

  /** No component of a sanitised name contains `#`. */
  lemma SanitisedPartsLackHash(f: string)
    ensures var p := Split(NameFormat(f), '.'); forall i :: 0 <= i < |p| ==> '#' !in p[i]
  {
    NameFormatLacksIllegal(f, '#');
    SplitPartsLackChar(NameFormat(f), '.', '#');
  }

  /** Components free of `.` and `#`, joined by `#`, then `.` and an extension. */
  lemma HashJoinPair(stems: seq<string>, x: string)
    requires |stems| >= 1 && '.' !in x
    requires forall i :: 0 <= i < |stems| ==> '.' !in stems[i] && '#' !in stems[i]
    ensures Split(Join('#', stems) + ['.'] + x, '.') == [Join('#', stems), x]
    ensures CountChar(Join('#', stems) + ['.'] + x, '.') == 1
    ensures Split(Join('#', stems), '#') == stems
  {
    JoinHasNoChar(stems, '#', '.');
    SplitPair(Join('#', stems), x, '.');
    SplitJoin(stems, '#');
  }

  // ---------------------------------------------------------------------------------------------
  // Properties of the disguise

  /** An unlisted extension: the result is the sanitised components except the last, joined by
      `#`, then `.` and the disguise extension, so it has exactly one `.`. */
  lemma ConfusedUnlisted(d: Disguise, f: string)
    requires '.' in f && '.' !in d.suffix
    requires var p := Split(NameFormat(f), '.'); p[|p| - 1] !in ValidSuffixes
    ensures var p := Split(NameFormat(f), '.');
      && CountChar(ConfusedName(d, f), '.') == 1
      && Split(ConfusedName(d, f), '.') == [Join('#', p[..|p| - 1]), d.suffix]
      && Split(Join('#', p[..|p| - 1]), '#') == p[..|p| - 1]
  {
    var p := Split(NameFormat(f), '.');
    NameFormatKeeps(f, '.');
    SplitHasSep(NameFormat(f), '.');
    DisguisedUnlisted(d, p, f);
    SplitPartsLack(NameFormat(f), '.');
    SanitisedPartsLackHash(f);
    var g := Join('#', p[..|p| - 1]) + ['.'] + d.suffix;
    assert ConfusedName(d, f) == g;
    HashJoinPair(p[..|p| - 1], d.suffix);
  }

  /** An allowlisted extension that is not an archive volume: the name comes back exactly as
      given, without being sanitised. */
  lemma ConfusedListedVerbatim(d: Disguise, f: string)
    requires '.' in f
    requires var p := Split(NameFormat(f), '.');
      |p| >= 2 && p[|p| - 1] in ValidSuffixes && !(p[|p| - 1] == "rar" && IsPartTag(p[|p| - 2]))
    ensures ConfusedName(d, f) == f
  {
    DisguisedListed(d, Split(NameFormat(f), '.'), f);
  }

  /** `a$b.txt` is uploaded under its unsanitised name. */
  lemma ListedNameNotSanitised(d: Disguise)
    ensures ConfusedName(d, "a$b.txt") == "a$b.txt"
  {
    SanitiseExample();
    TxtSplit();
    ConfusedListedVerbatim(d, "a$b.txt");
  }

  lemma TxtSplit()
    ensures Split("ab.txt", '.') == ["ab", "txt"]
    ensures "txt" in ValidSuffixes
  {
    SplitPair("ab", "txt", '.');
    assert "ab" + ['.'] + "txt" == "ab.txt";
  }

  lemma SanitiseExample()
    ensures NameFormat("a$b.txt") == "ab.txt"
  {
    SanitiseDollar();
    TxtNameLegal();
    NameFormatClean("b.txt");
    NameFormatConcat("a$", "b.txt");
    assert "a$" + "b.txt" == "a$b.txt";
  }

  lemma SanitiseDollar()
    ensures NameFormat("a$") == "a"
  {
    NameFormatConcat("a", "$");
    assert "a" + "$" == "a$";
    NameFormatClean("a");
  }

  lemma TxtNameLegal()
    ensures forall i :: 0 <= i < |"b.txt"| ==> Legal("b.txt"[i])
  {
    assert "b.txt" == ['b', '.', 't', 'x', 't'];
  }

  /** Archive volumes `s1. ... .sk.part<D>.rar` of a clean name: the disguised name is
      `s1#...#sk.<token><D>.rar`, and decoding it gives back the original name with type `rar`. */
  lemma VolumeRoundTrip(d: Disguise, f: string, stems: seq<string>, digits: string)
    requires ValidToken(d.token)
    requires NameFormat(f) == f && SpaceFree(f)
    requires |stems| >= 1 && digits != [] && AllDigits(digits)
    requires Split(f, '.') == stems + ["part" + digits, "rar"]
    ensures '.' in f
    ensures Split(ConfusedName(d, f), '.') == [Join('#', stems), d.token + digits, "rar"]
    ensures CountChar(ConfusedName(d, f), '.') == 2
    ensures RightName(d, ConfusedName(d, f)) == (f, "rar")
  {
    VolumeEncoding(d, f, stems, digits);
    VolumeClean(d, f, stems, digits);
    VolumeEncoded(stems, d.token + digits);
    VolumeDecoding(d, f, stems, digits);
  }

  lemma VolumeEncoding(d: Disguise, f: string, stems: seq<string>, digits: string)
    requires NameFormat(f) == f
    requires |stems| >= 1 && digits != [] && AllDigits(digits)
    requires Split(f, '.') == stems + ["part" + digits, "rar"]
    ensures '.' in f
    ensures ConfusedName(d, f) == Join('#', stems) + ['.'] + (d.token + digits) + ['.'] + "rar"
  {
    var parts := Split(f, '.');
    SplitHasSep(f, '.');
    ConfusedNameClean(d, f);
    ReplacePartTag(d.token, digits);
    assert parts[..|parts| - 2] == stems;
    DisguisedVolume(d, parts, f);
  }

  lemma VolumeClean(d: Disguise, f: string, stems: seq<string>, digits: string)
    requires ValidToken(d.token)
    requires NameFormat(f) == f && SpaceFree(f)
    requires AllDigits(digits)
    requires Split(f, '.') == stems + ["part" + digits, "rar"]
    ensures AllClean(stems) && Clean(d.token + digits)
  {
    var parts := Split(f, '.');
    SanitisedClean(f);
    assert forall i :: 0 <= i < |stems| ==> stems[i] == parts[i];
    TokenVolumeClean(d.token, digits);
  }

  lemma VolumeDecoding(d: Disguise, f: string, stems: seq<string>, digits: string)
    requires ValidToken(d.token)
    requires |stems| >= 1 && AllClean(stems) && Clean(d.token + digits)
    requires digits != [] && AllDigits(digits)
    requires Split(f, '.') == stems + ["part" + digits, "rar"]
    ensures RightName(d, Join('#', stems) + ['.'] + (d.token + digits) + ['.'] + "rar") == (f, "rar")
  {
    var mid := d.token + digits;
    var g := Join('#', stems) + ['.'] + mid + ['.'] + "rar";
    assert Join('.', [mid, "rar"]) == mid + ['.'] + "rar";
    assert Clean("rar");
    DecodeHashJoined(stems, [mid, "rar"], g);
    var decoded := stems + [mid, "rar"];
    RightNameDecoded(d, g, decoded);
    RestoreTokenVolume(d.token, digits);
    assert decoded[..|decoded| - 2] == stems && decoded[|decoded| - 2] == mid;
    UndisguisedVolume(d, g, decoded);
    VolumeName(f, stems, digits);
  }

  lemma TokenVolumeClean(token: string, digits: string)
    requires ValidToken(token) && AllDigits(digits)
    ensures Clean(token + digits)
  {
    var mid := token + digits;
    forall i | 0 <= i < |mid| ensures mid[i] != '.' && mid[i] != '#' && mid[i] != '\U{A0}' && mid[i] != '\U{3000}' {
      if i < 5 { assert IsAsciiLower(token[i]); } else { assert IsAsciiDigit(digits[i - 5]); }
    }
  }

  /** `a.m.rar` with `a` the `#`-joined stems has three `.`-components. */
  lemma VolumeEncoded(stems: seq<string>, mid: string)
    requires |stems| >= 1 && AllClean(stems) && Clean(mid)
    ensures var g := Join('#', stems) + ['.'] + mid + ['.'] + "rar";
      Split(g, '.') == [Join('#', stems), mid, "rar"] && CountChar(g, '.') == 2
  {
    var a := Join('#', stems);
    JoinHasNoChar(stems, '#', '.');
    ThreePieces(a, mid, "rar", '.');
  }

  lemma ThreePieces(a: string, b: string, e: string, c: char)
    requires c !in a && c !in b && c !in e
    ensures Split(a + [c] + b + [c] + e, c) == [a, b, e]
    ensures CountChar(a + [c] + b + [c] + e, c) == 2
  {
    ThreePiecesSplit(a, b, e, c);
    ThreePiecesCount(a, b, e, c);
  }

  lemma ThreePiecesSplit(a: string, b: string, e: string, c: char)
    requires c !in a && c !in b && c !in e
    ensures Split(a + [c] + b + [c] + e, c) == [a, b, e]
  {
    Join3(a, b, e, c);
    SplitJoin([a, b, e], c);
  }

  lemma ThreePiecesCount(a: string, b: string, e: string, c: char)
    requires c !in a && c !in b && c !in e
    ensures CountChar(a + [c] + b + [c] + e, c) == 2
  {
    ThreePiecesSplit(a, b, e, c);
  }

  lemma VolumeName(f: string, stems: seq<string>, digits: string)
    requires |stems| >= 1 && Split(f, '.') == stems + ["part" + digits, "rar"]
    ensures f == Join('.', stems) + "." + ("part" + digits) + ".rar"
  {
    JoinSplit(f, '.');
    JoinAppend(stems, ["part" + digits, "rar"], '.');
    assert Join('.', ["part" + digits, "rar"]) == "part" + digits + "." + "rar";
  }

  /** What happens to an unlisted extension as written: the name comes back without it; a
      single-component stem gets the disguise extension back as its extension. */
  lemma UnlistedExtensionLost(d: Disguise, f: string)
    requires PlainSuffix(d.suffix)
    requires NameFormat(f) == f && SpaceFree(f) && '.' in f
    requires var p := Split(f, '.'); p[|p| - 1] !in ValidSuffixes
    ensures var p := Split(f, '.');
      RightName(d, ConfusedName(d, f)) ==
        (if |p| == 2 then p[0] + "." + d.suffix else Join('.', p[..|p| - 1]), Lower(d.suffix))
  {
    var p := Split(f, '.');
    UnlistedStems(f);
    var stems := p[..|p| - 1];
    assert |stems| == |p| - 1 && stems[0] == p[0];
    var g := Join('#', stems) + ['.'] + d.suffix;
    UnlistedEncoding(d, f);
    OwnSuffixDecoded(d, stems, g);
    assert RightName(d, ConfusedName(d, f)) == RightName(d, g);
  }

  lemma UnlistedStems(f: string)
    requires NameFormat(f) == f && SpaceFree(f) && '.' in f
    ensures var p := Split(f, '.'); |p| >= 2 && AllClean(p[..|p| - 1])
  {
    SplitHasSep(f, '.');
    SanitisedClean(f);
    var p := Split(f, '.');
    assert forall i :: 0 <= i < |p| - 1 ==> p[..|p| - 1][i] == p[i];
  }

  lemma UnlistedEncoding(d: Disguise, f: string)
    requires NameFormat(f) == f && '.' in f
    requires var p := Split(f, '.'); p[|p| - 1] !in ValidSuffixes
    ensures var p := Split(f, '.'); ConfusedName(d, f) == Join('#', p[..|p| - 1]) + ['.'] + d.suffix
  {
    ConfusedNameClean(d, f);
    DisguisedUnlisted(d, Split(f, '.'), f);
  }

  /** Decoding `s1#...#sk.<disguise extension>`: the extension is dropped and the `#` become `.`;
      a single stem gets the disguise extension back. */
  lemma OwnSuffixDecoded(d: Disguise, stems: seq<string>, g: string)
    requires PlainSuffix(d.suffix) && |stems| >= 1 && AllClean(stems)
    requires g == Join('#', stems) + ['.'] + d.suffix
    ensures RightName(d, g) ==
      (if |stems| == 1 then stems[0] + "." + d.suffix else Join('.', stems), Lower(d.suffix))
  {
    assert Join('.', [d.suffix]) == d.suffix;
    var decoded := stems + [d.suffix];
    DecodeHashJoined(stems, [d.suffix], g);
    RightNameDecoded(d, g, decoded);
    assert decoded[..|stems|] == stems;
    UndisguisedOwnSuffix(d, g, decoded);
    if |stems| == 1 {
      assert '.' !in Join('.', stems);
    } else {
      JoinHasChar(stems, '.');
    }
  }

  /** `photo.heic` is uploaded as `photo.dll` and listed back as `photo.dll`. */
  lemma PhotoHeicLosesExtension()
    ensures ConfusedName(Disguise(DefaultSuffix, "abcde"), "photo.heic") == "photo.dll"
    ensures RightName(Disguise(DefaultSuffix, "abcde"), "photo.dll") == ("photo.dll", "dll")
  {
    PhotoHeicEncoded(Disguise(DefaultSuffix, "abcde"));
    PhotoDllDecoded(Disguise(DefaultSuffix, "abcde"));
  }

  lemma PhotoHeicEncoded(d: Disguise)
    requires d.suffix == DefaultSuffix
    ensures ConfusedName(d, "photo.heic") == "photo.dll"
  {
    var f := "photo.heic";
    PhotoHeicFacts();
    ConfusedNameClean(d, f);
    DisguisedUnlisted(d, ["photo", "heic"], f);
    assert ["photo", "heic"][..1] == ["photo"];
    assert Join('#', ["photo"]) == "photo";
    PhotoDll();
  }

  lemma PhotoDllDecoded(d: Disguise)
    requires d.suffix == DefaultSuffix
    ensures RightName(d, "photo.dll") == ("photo.dll", "dll")
  {
    assert PlainSuffix("dll") && Clean("photo");
    RealDisguiseFileKept(d, "photo");
    PhotoDll();
  }

  lemma PhotoDll()
    ensures "photo" + ['.'] + "dll" == "photo.dll"
    ensures "photo" + "." + "dll" == "photo.dll"
    ensures Lower("dll") == "dll"
  {
  }

  lemma PhotoHeicFacts()
    ensures var f := "photo.heic";
      && NameFormat(f) == f && '.' in f && Split(f, '.') == ["photo", "heic"]
      && "heic" !in ValidSuffixes
  {
    var f := "photo.heic";
    PhotoHeicLegal();
    NameFormatClean(f);
    PhotoHeicSplit();
    if "heic" in ValidSuffixes { ListedNotStartingWithH("heic"); }
  }

  lemma PhotoHeicLegal()
    ensures forall i :: 0 <= i < |"photo.heic"| ==> Legal("photo.heic"[i])
  {
    assert "photo.heic" == ['p', 'h', 'o', 't', 'o', '.', 'h', 'e', 'i', 'c'];
  }

  lemma PhotoHeicSplit()
    ensures '.' in "photo.heic" && Split("photo.heic", '.') == ["photo", "heic"]
  {
    assert "photo.heic" == "photo" + ['.'] + "heic";
    SplitPair("photo", "heic", '.');
  }

  lemma ListedNotStartingWithH(s: string)
    requires s in ValidSuffixes
    ensures s != [] && s[0] != 'h'
  {
  }

  /** With the extension kept as a component, an unlisted extension survives the round trip. */
  lemma IntendedRoundTrip(d: Disguise, f: string)
    requires PlainSuffix(d.suffix)
    requires NameFormat(f) == f && SpaceFree(f) && '.' in f
    requires var p := Split(f, '.'); p[|p| - 1] !in ValidSuffixes
    ensures RightName(d, ConfusedNameIntended(d, f)) == (f, Lower(d.suffix))
  {
    IntendedEncoding(d, f);
    IntendedDecoding(d, f);
  }

  lemma IntendedEncoding(d: Disguise, f: string)
    requires NameFormat(f) == f && '.' in f
    requires var p := Split(f, '.'); p[|p| - 1] !in ValidSuffixes
    ensures ConfusedNameIntended(d, f) == Join('#', Split(f, '.')) + ['.'] + d.suffix
  {
    SplitHasSep(f, '.');
    assert ConfusedNameIntended(d, f) == DisguisedIntended(d, Split(f, '.'), f);
    DisguisedIntendedUnlisted(d, Split(f, '.'), f);
  }

  lemma IntendedDecoding(d: Disguise, f: string)
    requires PlainSuffix(d.suffix)
    requires NameFormat(f) == f && SpaceFree(f) && '.' in f
    ensures RightName(d, Join('#', Split(f, '.')) + ['.'] + d.suffix) == (f, Lower(d.suffix))
  {
    var p := Split(f, '.');
    SplitHasSep(f, '.');
    SanitisedClean(f);
    OwnSuffixDecoded(d, p, Join('#', p) + ['.'] + d.suffix);
    JoinSplit(f, '.');
  }

  /** A clean name with an allowlisted extension other than the disguise one, and not looking like
      a disguised volume, is uploaded and listed under its own name. */
  lemma ListedRoundTrip(d: Disguise, f: string)
    requires NameFormat(f) == f && SpaceFree(f) && '.' in f
    requires var p := Split(f, '.');
      && |p| >= 2 && p[|p| - 1] in ValidSuffixes && p[|p| - 1] != d.suffix
      && !(p[|p| - 1] == "rar" && (IsPartTag(p[|p| - 2]) || IsVolumeTag(p[|p| - 2])))
    ensures ConfusedName(d, f) == f
    ensures var p := Split(f, '.'); RightName(d, ConfusedName(d, f)) == (f, Lower(p[|p| - 1]))
  {
    ListedKept(d, f);
    assert RightName(d, ConfusedName(d, f)) == RightName(d, f);
    ListedDecoded(d, f);
  }

  lemma ListedKept(d: Disguise, f: string)
    requires NameFormat(f) == f && '.' in f
    requires var p := Split(f, '.');
      && |p| >= 2 && p[|p| - 1] in ValidSuffixes && !(p[|p| - 1] == "rar" && IsPartTag(p[|p| - 2]))
    ensures ConfusedName(d, f) == f
  {
    ConfusedNameClean(d, f);
    DisguisedListed(d, Split(f, '.'), f);
  }

  lemma ListedDecoded(d: Disguise, f: string)
    requires NameFormat(f) == f && SpaceFree(f) && '.' in f
    requires var p := Split(f, '.');
      && |p| >= 2 && p[|p| - 1] != d.suffix && !(p[|p| - 1] == "rar" && IsVolumeTag(p[|p| - 2]))
    ensures var p := Split(f, '.'); RightName(d, f) == (f, Lower(p[|p| - 1]))
  {
    RightNameClean(d, f);
    UndisguisedOther(d, f, Split(f, '.'));
  }

  /** The returned type is the lower-cased text after the input's last `.` or `#`. */
  lemma TypeIsLastComponent(d: Disguise, f: string, k: int)
    requires 0 <= k < |f| && (f[k] == '.' || f[k] == '#')
    requires forall j :: k < j < |f| ==> f[j] != '.' && f[j] != '#'
    ensures RightName(d, f).1 == Lower(NormalizeSpaces(f[k + 1..]))
  {
    var t := ReplaceChar(NormalizeSpaces(f), '#', '.');
    var tail := NormalizeSpaces(f[k + 1..]);
    assert t == t[..k] + ['.'] + t[k + 1..];
    assert t[k + 1..] == tail;
    SplitConcat(t[..k], tail, '.');
    SplitNoSep(tail, '.');
  }

  /** A real file `x.dll` keeps its name. */
  lemma RealDisguiseFileKept(d: Disguise, x: string)
    requires PlainSuffix(d.suffix) && Clean(x)
    ensures RightName(d, x + "." + d.suffix) == (x + "." + d.suffix, Lower(d.suffix))
  {
    var f := x + "." + d.suffix;
    assert f == x + ['.'] + d.suffix;
    NormalizeNothing(f);
    ReplaceNothing(f, '#', '.');
    SplitPair(x, d.suffix, '.');
    RightNameDecoded(d, f, [x, d.suffix]);
    UndisguisedOwnSuffix(d, f, [x, d.suffix]);
    assert Join('.', [x]) == x;
  }

  /** `x.y.dll` loses its `.dll`: the disguise extension is indistinguishable from a real one. */
  lemma MultiDotDisguiseFileShortened(d: Disguise, x: string, y: string)
    requires PlainSuffix(d.suffix) && Clean(x) && Clean(y)
    ensures RightName(d, x + "." + y + "." + d.suffix) == (x + "." + y, Lower(d.suffix))
  {
    var f := x + "." + y + "." + d.suffix;
    var parts := [x, y, d.suffix];
    Join3(x, y, d.suffix, '.');
    assert Clean(d.suffix);
    DecodeClean(parts, f);
    RightNameDecoded(d, f, parts);
    UndisguisedOwnSuffix(d, f, parts);
    assert parts[..2] == [x, y];
    assert Join('.', [x, y]) == x + "." + y;
    assert (x + "." + y)[|x|] == '.';
  }

  /** A `.`-joined name of clean components is its own decoding input. */
  lemma DecodeClean(parts: seq<string>, f: string)
    requires |parts| >= 2 && AllClean(parts) && f == Join('.', parts)
    ensures NormalizeSpaces(f) == f && '.' in f
    ensures Split(ReplaceChar(f, '#', '.'), '.') == parts
  {
    JoinHasNoChar(parts, '.', '#');
    JoinedSpaceFree(parts, '.');
    JoinHasChar(parts, '.');
    NormalizeNothing(f);
    ReplaceNothing(f, '#', '.');
    SplitJoin(parts, '.');
  }

  /** A listed `rar` archive whose second-to-last component is letters then digits is rewritten:
      `x.<letters><digits>.rar` is listed as `x.part<digits>.rar`. */
  lemma LettersDigitsRewritten(d: Disguise, x: string, letters: string, digits: string)
    requires Clean(x) && letters != [] && AllLower(letters) && digits != [] && AllDigits(digits)
    ensures RightName(d, x + "." + (letters + digits) + ".rar").0 == x + ".part" + digits + ".rar"
  {
    var v := letters + digits;
    LettersDigitsClean(letters, digits);
    var f := x + "." + v + ".rar";
    LettersDigitsDecoded(d, x, v);
    LettersDigitsRestored(letters, digits);
    VolumeThree(d, f, x, v);
    PartConcat(x, digits);
  }

  lemma PartConcat(x: string, digits: string)
    ensures x + "." + ("part" + digits) + ".rar" == x + ".part" + digits + ".rar"
  {
  }

  lemma VolumeThree(d: Disguise, s: string, x: string, v: string)
    requires IsVolumeTag(v)
    ensures Undisguised(d, s, [x, v, "rar"]).0 == x + "." + RestorePart(v) + ".rar"
  {
    UndisguisedVolume(d, s, [x, v, "rar"]);
    assert [x, v, "rar"][..1] == [x];
  }

  lemma LettersDigitsClean(letters: string, digits: string)
    requires AllLower(letters) && AllDigits(digits)
    ensures Clean(letters + digits)
  {
    var v := letters + digits;
    forall i | 0 <= i < |v| ensures v[i] != '.' && v[i] != '#' && v[i] != '\U{A0}' && v[i] != '\U{3000}' {
      if i < |letters| { assert IsAsciiLower(letters[i]); } else { assert IsAsciiDigit(digits[i - |letters|]); }
    }
  }

  lemma LettersDigitsDecoded(d: Disguise, x: string, v: string)
    requires Clean(x) && Clean(v)
    ensures RightName(d, x + "." + v + ".rar") == Undisguised(d, x + "." + v + ".rar", [x, v, "rar"])
  {
    var parts := [x, v, "rar"];
    var f := x + "." + v + ".rar";
    Join3(x, v, "rar", '.');
    assert Clean("rar");
    DecodeClean(parts, f);
    RightNameDecoded(d, f, parts);
  }

  lemma LettersDigitsRestored(letters: string, digits: string)
    requires letters != [] && AllLower(letters) && digits != [] && AllDigits(digits)
    ensures IsVolumeTag(letters + digits)
    ensures RestorePart(letters + digits) == "part" + digits
  {
    var v := letters + digits;
    LowerRunExact(letters, digits);
    assert v[|letters|..] == digits;
    DigitRunAll(digits);
    assert v[|letters|..|letters| + |digits|] == digits && v[|letters| + |digits|..] == [];
  }

  /** `backup.v2.rar` is listed as `backup.part2.rar`. */
  lemma LettersDigitsVolumeRewritten(d: Disguise)
    ensures RightName(d, "backup.v2.rar").0 == "backup.part2.rar"
  {
    BackupLiterals();
    LettersDigitsRewritten(d, "backup", "v", "2");
  }

  lemma BackupLiterals()
    ensures Clean("backup") && AllLower("v") && AllDigits("2")
    ensures "backup" + "." + ("v" + "2") + ".rar" == "backup.v2.rar"
    ensures "backup" + ".part" + "2" + ".rar" == "backup.part2.rar"
  {
    assert "backup" == ['b', 'a', 'c', 'k', 'u', 'p'];
  }
}
