# LanZouCloud client: a verified model of its decision logic

`lanzou/api.py` is a Python client for the LanZou cloud-storage web console. It signs in, lists
and moves files and folders, turns public share links into direct download links, uploads files
(splitting large ones into `rar` volumes), and downloads single files or whole shared folders.
Most of the file is HTTP glue. This project models the parts that decide things. Every answer the
site gives becomes an input: a page already stripped of its notes, the fields the scraping patterns
capture, and the decoded JSON replies. The parts modelled are:

- the file-name codec: sanitising (`_name_format`), disguising names to get past the upload filter
  (`_get_confused_name`) and undoing the disguise (`_get_right_name`);
- the conversion of relative upload times (`_time_format`);
- the two share-link shape tests (`is_file_url`, `is_folder_url`);
- the recycle-bin listings and the scheme that numbers repeated truncated names;
- the reorganisation of the recycle bin in `get_rec_all`;
- the paged file listing, the sorted name→id maps and the field rules of `get_share_info`;
- the request chains of `get_file_info_by_url` and of `get_folder_info_by_url`, including the
  folder-share page loop over the statuses 1/2/3/4/other and the completion of the folder's year;
- the client object's own state (`_max_size`, `_rar_path`, `_upload_finished_flag`), the
  progress-callback suppression, and the result gathering of `upload_file`, `upload_dir`,
  `down_dir_by_url` and `down_dir_by_id`.

Most Python exceptions the source does not catch are part of the model. They come back as
`Raised(fault)` of `Codes.Outcome`. This covers `IndexError` from `fn_list[-2]` in
`_get_right_name` and from `file_list[0]`, `ValueError` from `int(...)`, `OverflowError` from a
day outside Python's calendar, `AttributeError` on a missing response in the link-resolving chain,
`KeyError` on the share-info fields `get_share_info` reads, on the `inf` of the link-info reply (line 462) and on a redirect without `Location` (line 495), and an exception escaping a per-file
upload or download. A failed request is `None`. The exceptions left out are listed under
"Left out".
The loops that change variables step by step are `method`s with loop invariants. Each is proved
equal to a recursive function, and the properties the source promises are proved about that
function.

Modules and files, leaves first:

| file | module | what it holds |
|---|---|---|
| strings.dfy | Strings | Python's `split`, `join`, `replace`, `lower`, `str(n)`, `int(s)`, `in` on text |
| codes.dfy | Codes | the result codes (`FAILED` = -1 … `NETWORK_ERROR` = 9), uncaught exceptions, `Outcome` |
| name_codec.dfy | NameCodec | `_name_format`, `_get_confused_name`, `_get_right_name` and their round trips |
| times.dfy | Times | `_time_format` |
| share_url.dfy | ShareUrl | `is_file_url`, `is_folder_url` |
| repeats.dfy | Repeats | the `(n)` numbering of repeated names in the recycle-bin loops |
| recycle_lists.dfy | RecycleLists | `get_rec_dir_list`, `get_rec_file_list` (root and folder) |
| recycle_merge.dfy | RecycleMerge | `get_rec_all` |
| name_maps.dfy | NameMaps | `{name: id}` dicts read back in `sorted` key order |
| listing.dfy | Listing | `get_file_list`, `get_file_id_list`, `get_dir_list`, `get_dir_id_list`, `get_share_info` |
| resolver.dfy | Resolver | `get_file_info_by_url`/`_by_id`, `get_durl_by_url`/`_by_id` |
| folder_share.dfy | FolderShare | `get_folder_info_by_url`/`_by_id` |
| client.dfy | Client | the `LanZouCloud` object's state, uploads, folder downloads, `_unzip` |

The client's disguise extension (`dll`) and its five-letter random token are fields of
`NameCodec.Disguise`, fixed when a `Client.LanZouCloud` is constructed. "Today" is a day number
handed in, and a date is a `Times.Stamp` (`Day(n)` or the text returned unchanged).

## Model

| member | source | states |
|---|---|---|
| Codes.Code.Value | lanzou/api.py:27-37 | each code's integer lies in -1..9 and is 0 exactly for `SUCCESS` |
| Codes.CodeValuesDistinct | lanzou/api.py:27-37 | two codes with the same integer are the same code |
| Codes.Prepend | lanzou/api.py:298-322 | putting a loop's earlier values in front keeps an escaped exception |
| Codes.PrependTwice | lanzou/api.py:298-322 | putting values in front twice is putting the joined values in front once |
| Strings.Split | lanzou/api.py:107 | `split` gives one more piece than there are separators |
| Strings.SplitHasSep | lanzou/api.py:107-108 | more than one piece exactly when the separator occurs (so `fn_list[-2]` exists) |
| Strings.JoinSplit | lanzou/api.py:123-133 | joining the pieces of a split with the same separator gives the text back |
| Strings.SplitJoin | lanzou/api.py:123-133 | splitting a join of pieces free of the separator gives the pieces back |
| Strings.ParseDecimal | lanzou/api.py:96 | `int` of a day count written in decimal is that count |
| Strings.ParseInt | lanzou/api.py:96 | a definition of `int(s)` on decimal text: white space around, an optional sign and at least one ASCII digit, `None` for `ValueError`; stated by `ParseDecimal` and `Times.UnspacedNotInteger` (used again at lines 380-387) |
| NameCodec.NameFormat | lanzou/api.py:81-83 | the result is no longer than the name and has no character of the illegal class |
| NameCodec.NameFormatIdempotent | lanzou/api.py:81-83 | sanitising twice is sanitising once |
| NameCodec.NameFormatFixedPoint | lanzou/api.py:81-83 | a name is left alone exactly when it has no illegal character |
| NameCodec.NameFormatDeletesOnlyIllegal | lanzou/api.py:81-83 | the result is a subsequence of the name and keeps every legal character, with its count |
| NameCodec.NameFormatKeeps | lanzou/api.py:81-83 | a legal character is in the result exactly when it is in the name |
| NameCodec.NameFormatLacksIllegal | lanzou/api.py:81-83 | no illegal character, `#` included, survives |
| NameCodec.NameFormatConcat | lanzou/api.py:81-83 | sanitising works character by character: the result for `a + b` is the results for `a` and `b` joined |
| NameCodec.IsPartTag | lanzou/api.py:115 | a definition: `re.match(r"part\d+", ...)` holds exactly when the text starts with `part` and a digit |
| NameCodec.ConfusedName | lanzou/api.py:107-118 | a definition: the sanitised name split at `.` and handed to `Disguised`; its properties are the `Confused…` lemmas below |
| NameCodec.Disguised | lanzou/api.py:108-118 | a definition: a listed extension keeps the name given, an unlisted one is replaced, and a `partN.rar` volume has its tag rewritten; stated by `DisguisedListed`, `DisguisedUnlisted` and `DisguisedVolume` |
| NameCodec.IsVolumeTag | lanzou/api.py:131 | a definition: `re.match(r"[a-z]+\d+", ...)` holds exactly when the longest leading run of ASCII lower-case letters is non-empty and followed by a digit |
| NameCodec.RestorePart | lanzou/api.py:132 | a definition: every run of letters followed by digits becomes `part` and the digits, left to right; stated by `RestoreTokenVolume` and `LettersDigitsRestored` |
| NameCodec.RightName | lanzou/api.py:120-140 | the restored name always contains a `.` |
| NameCodec.Undisguised | lanzou/api.py:127-140 | once the name is split, the restored name contains a `.` |
| NameCodec.SeparatorSurvives | lanzou/api.py:122-123 | a name with a `.` or `#` still has a `.` after the space and `#` rewriting |
| NameCodec.DisguisedListed | lanzou/api.py:110-118 | an allowlisted extension that is not a `partN.rar` volume leaves the name as given |
| NameCodec.DisguisedUnlisted | lanzou/api.py:111-112 | an unlisted extension gives the components but the last, `#`-joined, then `.` and the disguise extension |
| NameCodec.DisguisedVolume | lanzou/api.py:115-117 | a `partN.rar` volume has `part` replaced by the token and the stems `#`-joined |
| NameCodec.UndisguisedOwnSuffix | lanzou/api.py:127-128 | a name ending in the disguise extension loses it |
| NameCodec.UndisguisedOther | lanzou/api.py:127-140 | any other extension that is not a volume keeps the name; the type is the lower-cased extension |
| NameCodec.UndisguisedVolume | lanzou/api.py:131-133 | a `rar` with a letters-then-digits tag comes back with the tag as `partN`, type `rar` |
| NameCodec.ConfusedNameClean | lanzou/api.py:107-118 | on a sanitised name the encoder works on its `.`-components |
| NameCodec.RightNameDecoded | lanzou/api.py:122-140 | on a name the space rewriting leaves alone, the decoder works on its components |
| NameCodec.RightNameClean | lanzou/api.py:122-140 | a sanitised name without special spaces is decoded as it is split |
| NameCodec.SanitisedClean | lanzou/api.py:83 | the components of a sanitised name without special spaces hold no `.`, `#` or special space |
| NameCodec.SanitisedPartsLackHash | lanzou/api.py:81-83 | no component of a sanitised name contains `#` |
| NameCodec.DecodeHashJoined | lanzou/api.py:122-123 | decoding `s1#…#sk.t1.….tm` splits it into exactly the `s` and `t` components |
| NameCodec.HashToDot | lanzou/api.py:122-123 | in such a name the `#` become `.`, giving the `.`-join of all components |
| NameCodec.RestoreTokenVolume | lanzou/api.py:131-132 | the decoder treats `<token><digits>` as a volume tag and turns it into `part<digits>` |
| NameCodec.ReplacePartTag | lanzou/api.py:115-116 | the encoder treats `part<digits>` as a volume tag and turns it into `<token><digits>` |
| NameCodec.ConfusedUnlisted | lanzou/api.py:107-112 | an unlisted extension gives the sanitised components but the last, `#`-joined, plus `.` and the disguise extension, with exactly one `.` |
| NameCodec.ConfusedListedVerbatim | lanzou/api.py:110-118 | an allowlisted non-volume name is returned as given, even unsanitised |
| NameCodec.ListedNameNotSanitised | lanzou/api.py:118 | `a$b.txt` is uploaded under `a$b.txt`, not `ab.txt` |
| NameCodec.VolumeRoundTrip | lanzou/api.py:115-133 | `s1.….sk.partD.rar` disguises to exactly two dots, middle component token+D, ending `.rar`, and decodes to `(original, "rar")` |
| NameCodec.VolumeEncoding | lanzou/api.py:115-117 | the disguised volume name is `s1#…#sk.<token>D.rar` |
| NameCodec.VolumeDecoding | lanzou/api.py:122-133 | `s1#…#sk.<token>D.rar` decodes to the original volume name and `rar` |
| NameCodec.UnlistedExtensionLost | lanzou/api.py:112-128 | as written, an unlisted extension is lost: the name comes back as the stems `.`-joined, type the disguise extension |
| NameCodec.UnlistedEncoding | lanzou/api.py:111-112 | a sanitised name with an unlisted extension disguises to its stems `#`-joined plus the disguise extension |
| NameCodec.OwnSuffixDecoded | lanzou/api.py:122-140 | `s1#…#sk.<disguise>` decodes to the stems `.`-joined (`s1.<disguise>` when k = 1) |
| NameCodec.PhotoHeicLosesExtension | lanzou/api.py:112-140 | `photo.heic` is uploaded as `photo.dll` and listed back as `photo.dll` |
| NameCodec.IntendedRoundTrip | lanzou/api.py:112-140 | with the extension kept as a component, the name with every unlisted extension survives the round trip; the type reported beside it is still the lower-cased disguise suffix, not the name's own extension, because `_get_right_name` takes the type from the listed suffix either way |
| NameCodec.IntendedEncoding | lanzou/api.py:112 | the corrected encoder `#`-joins all components, extension included |
| NameCodec.IntendedDecoding | lanzou/api.py:122-140 | the corrected disguised name decodes to the original name |
| NameCodec.DisguisedIntendedUnlisted | lanzou/api.py:112 | the corrected encoder on split components keeps every component |
| NameCodec.ListedRoundTrip | lanzou/api.py:110-140 | a clean name with an allowlisted extension other than the disguise one and no volume tag is kept and decoded to itself and its lower-cased extension |
| NameCodec.ListedKept | lanzou/api.py:110-118 | such a name is uploaded under its own name |
| NameCodec.ListedDecoded | lanzou/api.py:122-140 | such a name is decoded to itself |
| NameCodec.TypeIsLastComponent | lanzou/api.py:123-140 | the reported type is the lower-cased text after the last `.` or `#` |
| NameCodec.RealDisguiseFileKept | lanzou/api.py:127-138 | a real `x.dll` keeps its name |
| NameCodec.MultiDotDisguiseFileShortened | lanzou/api.py:127-137 | `x.y.dll` loses `.dll` |
| NameCodec.DecodeClean | lanzou/api.py:122-123 | a `.`-joined name of clean components splits back into them |
| NameCodec.LettersDigitsRewritten | lanzou/api.py:131-133 | a listed `x.<letters><digits>.rar` is shown as `x.part<digits>.rar` |
| NameCodec.LettersDigitsRestored | lanzou/api.py:131-132 | letters then digits is a volume tag and becomes `part<digits>` |
| NameCodec.LettersDigitsVolumeRewritten | lanzou/api.py:131-133 | `backup.v2.rar` is listed as `backup.part2.rar` |
| NameCodec.VolumeThree | lanzou/api.py:131-133 | a three-component volume name has its tag restored in place |
| Times.TimeFormat | lanzou/api.py:86-98 | only `天前` text raises `ValueError`, any rule but `秒前` can raise `OverflowError` for a day outside 0001-01-01 … 9999-12-31, a computed day other than today lies in that range, the text comes back unchanged when not converted, and `秒前` is always today |
| Times.DaysBefore | lanzou/api.py:91-96 | `datetime.today() - timedelta(days=n)`: a day exactly when `n` fits a `timedelta` and the day reached is between 0001-01-01 and 9999-12-31, and `OverflowError` otherwise |
| Times.TextKeptIff | lanzou/api.py:88-98 | a text is returned unchanged exactly when it has none of `秒前`, `昨天`, `前天`, `天前` |
| Times.DaysAgoRoundTrip | lanzou/api.py:94-96 | `N 天前` is the day `N` days before today when `N` fits a `timedelta` and that day is in the calendar, and raises `OverflowError` otherwise |
| Times.MillionDaysAgoOverflows | lanzou/api.py:94-96 | "1000000 天前" raises `OverflowError` on any day before the year 2738 |
| Times.MinutesAgoKept | lanzou/api.py:88 | `N 分钟前` is returned as text, not as today (the condition checks `秒前` only) |
| Times.UnspacedDaysAgoRaises | lanzou/api.py:94-96 | `N天前` without the space raises `ValueError` |
| Times.UnspacedNotInteger | lanzou/api.py:96 | a text ending in `天前` is not an integer |
| Times.DigitsLackMarkers | lanzou/api.py:88-94 | decimal digits contain none of the marker characters |
| Times.DaysAgoSuffix | lanzou/api.py:88-95 | ` 天前` matches only the fourth rule and is removed whole |
| Times.MinutesSuffix | lanzou/api.py:88-94 | ` 分钟前` matches no rule |
| Times.RuleOrder | lanzou/api.py:88-96 | `昨天` gives yesterday whenever `秒前` is absent, `前天` gives the day before when `昨天` is absent too, and only then does `天前` go to `int` of the text without " 天前": `ValueError` exactly when `int` fails, a day exactly when the count fits a `timedelta` and the day reached is in the calendar, `OverflowError` otherwise |
| Times.YesterdayBeatsDaysAgo | lanzou/api.py:90-94 | "昨天前" contains `天前` but is read as `昨天`, which is yesterday whenever yesterday is in the calendar |
| ShareUrl.AfterScheme | lanzou/api.py:143-152 | what follows `http://` or `https://` is a proper suffix of the link |
| ShareUrl.IsFileUrl | lanzou/api.py:143-146 | a definition: scheme `http` or `https`, the host pattern, `i`, at least six ASCII lower-case letters or digits and an optional `/`, matched in full; stated by `FileLinkAccepted`, `FileFolderExclusive` and `ShapeOfLink` |
| ShareUrl.IsFolderUrl | lanzou/api.py:149-152 | a definition: the same shape with `b` and at least seven characters; stated by `FolderLinkLength` and `FileFolderExclusive` |
| ShareUrl.FileFolderExclusive | lanzou/api.py:143-152 | no link is both a file link and a folder link |
| ShareUrl.ShapeOfLink | lanzou/api.py:143-152 | behind a matching host, a link is accepted exactly when its id matches |
| ShareUrl.HostMatchesItself | lanzou/api.py:145 | the real host matches the host pattern |
| ShareUrl.FileLinkAccepted | lanzou/api.py:145-146 | an id of at least six lower-case letters or digits is a file link, with or without `/` |
| ShareUrl.FolderLinkLength | lanzou/api.py:151-152 | a folder id needs at least seven characters |
| ShareUrl.UpperCaseRefused | lanzou/api.py:143-152 | an id with an upper-case letter is refused by both |
| ShareUrl.DotsMatchAnyCharacter | lanzou/api.py:145 | the unescaped dots accept `wwwxlanzousxcom` |
| ShareUrl.LookalikeHost | lanzou/api.py:145 | `wwwxlanzousxcom/` matches the host part |
| Repeats.Numbered | lanzou/api.py:241 | `name(k)` is longer than `name` and starts with it |
| Repeats.Rename | lanzou/api.py:239-243 | the emitted name starts with the name, and is the name exactly when it was not emitted before |
| Repeats.Record | lanzou/api.py:238-244 | the loop body appends the emitted name to the list |
| Repeats.DedupFrom | lanzou/api.py:238-245 | one emitted name per input name |
| Repeats.Dedup | lanzou/api.py:236-245 | output length equals input length |
| Repeats.DedupEntry | lanzou/api.py:238-244 | each output starts with its input, and equals it exactly when the input is not among earlier outputs |
| Repeats.DedupFreshIff | lanzou/api.py:236-245 | from the start, a name is kept exactly when no earlier output equals it |
| Repeats.FreshResets | lanzou/api.py:242-243 | a fresh name resets the counter: its first repeat is numbered 2 |
| Repeats.LeadingRun | lanzou/api.py:236-245 | `X, X, X` becomes `X, X(2), X(3)` |
| Repeats.RestartRepeats | lanzou/api.py:236-245 | `X, X, Y, X` becomes `X, X(2), Y, X(2)`: names are not made unique |
| Repeats.DedupStep | lanzou/api.py:237-245 | one step of the loop emits the renamed head, then the rest from the new state |
| RecycleLists.Disambiguate | lanzou/api.py:238-244 | the emitted name and the new list and counter are those of one loop body (the same body recurs at lines 265-270 and 292-297) |
| RecycleLists.DirNames | lanzou/api.py:236-244 | the folder rows' names, in order |
| RecycleLists.DirsOf | lanzou/api.py:227-246 | a failed request gives no folders, otherwise one per row |
| RecycleLists.DirsOfRow | lanzou/api.py:237-245 | folder `i` keeps its id, size and time; its name starts with the row's and is unchanged exactly when no earlier folder had that name |
| RecycleLists.RecDirList | lanzou/api.py:227-246 | the loop gives the folders `DirsOf` describes |
| RecycleLists.Trimmed | lanzou/api.py:263-264 | removing `...` gives a prefix of the name |
| RecycleLists.WithType | lanzou/api.py:272-273 | the name then ends with its type and starts with the given name (so also at lines 298-299) |
| RecycleLists.RootEntry | lanzou/api.py:262-276 | a root entry keeps the row's id and time and has a `.` in its name |
| RecycleLists.RecRootFiles | lanzou/api.py:248-277 | the root loop gives the listing the recursive definition describes, raising where it raises |
| RecycleLists.RootRow | lanzou/api.py:263-276 | one loop body: the entry and the new list and counter |
| RecycleLists.RootFilesFrom | lanzou/api.py:259-277 | a definition of the root-row loop from a numbering state: each row's entry in order, `IndexError` from the first row `_get_right_name` cannot split; stated by `RecRootFiles`, `RootFilesShape` and `RootFilesDotted` |
| RecycleLists.RootFilesOf | lanzou/api.py:250-277 | a definition: no page gives no files, otherwise the row loop from the fresh state |
| RecycleLists.RootFilesShape | lanzou/api.py:261-277 | a root listing has one entry per row, in order, with the row's id and time and a name with a `.` |
| RecycleLists.RootFilesDotted | lanzou/api.py:262-275 | rows whose trimmed names all carry a `.` never make the listing raise |
| RecycleLists.RecFolderFiles | lanzou/api.py:278-301 | the folder loop gives the listing the recursive definition describes |
| RecycleLists.FolderEntry | lanzou/api.py:291-300 | a definition: the decoded name, told apart by the counter and given its type, or `None` when `_get_right_name` raises |
| RecycleLists.FolderFilesFrom | lanzou/api.py:287-301 | a definition of the folder-row loop from a numbering state; stated by `FolderFilesRaise` and `FolderFilesShape` |
| RecycleLists.FolderFilesOf | lanzou/api.py:278-301 | a definition: no page or the "no files" page gives no files, otherwise the row loop from the fresh state |
| RecycleLists.FolderFilesRaise | lanzou/api.py:291 | a folder listing raises exactly when some shown name has neither `.` nor `#` |
| RecycleLists.FolderFilesShape | lanzou/api.py:290-300 | one entry per row, in order, with the row's id and size, each name ending with its type |
| RecycleMerge.NameIndex | lanzou/api.py:306 | every key points at a root file with that name |
| RecycleMerge.NameIndexLast | lanzou/api.py:306 | a name is a key exactly when some root file has it, and its index is the last such file |
| RecycleMerge.MergeFiles | lanzou/api.py:311-319 | one merged file per folder file |
| RecycleMerge.Merge | lanzou/api.py:311-319 | a definition: a folder file takes the time of the root file its name points to, or else the folder's time; stated by `MergeTime` |
| RecycleMerge.Without | lanzou/api.py:321 | the remaining root files are those not claimed |
| RecycleMerge.Claims | lanzou/api.py:311-314 | a definition: the root entries the folder files point to, in order; stated by `ClaimsAreNamesakes` and `NamesakeClaimed` |
| RecycleMerge.Combine | lanzou/api.py:308-319 | an exception of a later folder escapes |
| RecycleMerge.FoldersFrom | lanzou/api.py:308-320 | a definition of the folder loop: each folder with its merged files, and all the claimed root entries; stated by `FoldersShape` and `BuildFolders` |
| RecycleMerge.RecAllOf | lanzou/api.py:303-322 | a definition: the root files left unclaimed and the folders, or the first exception; stated by `RecAll` and `EarlierNamesakeStays` |
| RecycleMerge.RecAll | lanzou/api.py:303-322 | `get_rec_all` gives the unclaimed root files and the folders of the recursive definition |
| RecycleMerge.BuildFolders | lanzou/api.py:308-320 | the outer loop gives the folders and claims of the recursive definition |
| RecycleMerge.MergeFolderFiles | lanzou/api.py:310-318 | the inner loop gives the merged files and the claimed root entries |
| RecycleMerge.MergeTime | lanzou/api.py:311-318 | a folder file takes the time of the last root file with its name, otherwise the folder's time |
| RecycleMerge.FoldersShape | lanzou/api.py:308-320 | one folder per folder row, in order, holding the merged files of its own page |
| RecycleMerge.ClaimsAreNamesakes | lanzou/api.py:311-313 | every claimed entry is a root file named like one of the folder's files |
| RecycleMerge.NamesakeClaimed | lanzou/api.py:311-313 | a folder file named like some root file claims a root entry of that name |
| RecycleMerge.EarlierNamesakeStays | lanzou/api.py:306-321 | of two root files with one name only the last is claimed; the earlier one stays |
| NameMaps.StrLessIrreflexive | lanzou/api.py:394 | Python string order is irreflexive |
| NameMaps.StrLessTransitive | lanzou/api.py:394 | Python string order is transitive |
| NameMaps.StrLessTotal | lanzou/api.py:394 | two different strings are ordered one way or the other |
| NameMaps.SortKeys | lanzou/api.py:394 | a definition of `sorted` on names by insertion; stated by `SortKeysSpec` |
| NameMaps.SortedMap | lanzou/api.py:393-394 | a definition of the dict read back in sorted key order; stated by `SortedMapSpec` and `LaterDuplicateWins` |
| NameMaps.SortKeysSpec | lanzou/api.py:394 | `sorted` of the keys is strictly increasing and holds exactly the names |
| NameMaps.LastWins | lanzou/api.py:393 | the dict's keys are exactly the entries' names |
| NameMaps.LastWinsValue | lanzou/api.py:393 | a key's value is the value of the last entry with that name |
| NameMaps.SortedMapSpec | lanzou/api.py:393-394 | the items are in increasing name order, name exactly the entries' names, and carry each name's last value (so also at lines 415-416) |
| NameMaps.LaterDuplicateWins | lanzou/api.py:393-394 | of two entries with one name the later value is kept |
| NameMaps.PrefixSortsFirst | lanzou/api.py:394 | a name that is a prefix of another sorts first |
| Listing.ListEntry | lanzou/api.py:377-388 | a row raises `IndexError` exactly for a name without separator and `OverflowError` exactly when its id converts and its time overflows; it converts exactly when every `int` and the time succeed, and keeps size, id, time, downloads and the two flags |
| Listing.FileListFrom | lanzou/api.py:363-389 | a definition of the page loop: a failed request is repeated, `info == 0` ends it, any other reply adds its rows; stated by `GetFileList`, `UnreadAfterEnd`, `RetryChangesNothing` and `OnePage` |
| Listing.GetFileList | lanzou/api.py:361-389 | the loop gives the listing the recursive definition describes, and page `pg` starts at 1 and moves on after each answered request |
| Listing.ListAnswer | lanzou/api.py:366-389 | one pass either ends the listing with its result or leaves the rest to the later answers |
| Listing.TakeRows | lanzou/api.py:377-388 | the rows of one answer either raise or are all appended |
| Listing.RowsThen | lanzou/api.py:377-388 | a definition: each row's record in order, the first row that raises ending the listing with its exception, then what the later pages give; stated by `TakeRows` |
| Listing.UnreadAfterEnd | lanzou/api.py:372-373 | answers after the first `info == 0` are never read |
| Listing.RetryChangesNothing | lanzou/api.py:367-369 | a failed request is repeated and changes nothing |
| Listing.OnePage | lanzou/api.py:363-389 | one page of convertible rows, then the end, gives exactly those records in order |
| Listing.StopsLater | lanzou/api.py:365-376 | a request that does not end the listing leaves one that does among the later answers |
| Listing.FileIdList | lanzou/api.py:391-394 | `get_file_id_list` raises exactly when `get_file_list` does |
| Listing.FileIdListSpec | lanzou/api.py:391-394 | each listed name once, in increasing order, with the id of the last file of that name |
| Listing.DirList | lanzou/api.py:396-411 | a failed request gives no folders; otherwise one per row with its id and description, and `has_pwd` exactly when the flag text is non-empty; the names are stated by `DirNamesRecovered` |
| Listing.DirNameUnescaped | lanzou/api.py:407 | `&amp;` in a folder name becomes `&` |
| Listing.UnescapeKeeps | lanzou/api.py:407 | a name without `&` is kept |
| Listing.EscapeAmp | lanzou/api.py:407 | the escaping the page applies to a name, the inverse of the `&amp;` replacement: names without `&` are unchanged, and each `&` adds four characters |
| Listing.UnescapeInverts | lanzou/api.py:407 | undoing `&amp;` gives back every escaped name, including names that hold `&amp;` themselves |
| Listing.DirNamesRecovered | lanzou/api.py:396-411 | for any names, rows carrying the escaped names are listed with exactly those names, in order |
| Listing.DirIdList | lanzou/api.py:413-416 | a failed request gives an empty map |
| Listing.DirIdListSpec | lanzou/api.py:413-416 | each folder name once, in increasing order, with the id of the last folder of that name |
| Listing.GetShareInfo | lanzou/api.py:522-549 | a failure carries only its code and empty fields; only a missing key raises |
| Listing.IdErrorIff | lanzou/api.py:533-534 | `ID_ERROR` exactly for an answered request that fails the id check |
| Listing.BadId | lanzou/api.py:533 | a definition of the id check: `f_id` present and equal to `i`, or `name` present and empty |
| Listing.SharePassword | lanzou/api.py:537 | the code is returned only when `onof` is `"1"` |
| Listing.ShareFileOrFolder | lanzou/api.py:538-549 | a file's link is `is_newd/f_id` with name and description from the second request; a folder's come from the first reply alone |
| Listing.ShareNetworkError | lanzou/api.py:527-542 | a failed first request, or a failed second one for a file, gives `NETWORK_ERROR` |
| Resolver.Finish | lanzou/api.py:493-501 | a failure is `PASSWORD_ERROR` with empty fields and `zt != 1`; success means `zt == 1`, `durl` is the `Location` of `dom/file/url`, link, code, size and description are echoed and the name has a `.` |
| Resolver.FakeUrl | lanzou/api.py:494 | a definition of `dom + '/file/' + url`, the link whose redirect gives the direct link |
| Resolver.FileInfoByUrl | lanzou/api.py:434-501 | a non-success result carries only its code |
| Resolver.UrlCheckedFirst | lanzou/api.py:437-438 | a link failing `is_file_url` gives `URL_INVALID`, whatever the site would answer |
| Resolver.CancelledBeforePassword | lanzou/api.py:445-449 | cancellation is checked before the code prompt |
| Resolver.LackPasswordBeforeSign | lanzou/api.py:449-451 | a code page without a code gives `LACK_PASSWORD` whatever the later requests would answer |
| Resolver.SuccessDirectLink | lanzou/api.py:493-499 | success implies the deciding reply had `zt == 1` and `durl` is the `Location` of `dom/file/url` |
| Resolver.OtherStatusIsPasswordError | lanzou/api.py:500-501 | any `zt` other than 1 gives `PASSWORD_ERROR` |
| Resolver.DurlByUrl | lanzou/api.py:510-515 | raises exactly when the file info does, has its code, and is empty on failure |
| Resolver.FileInfoById | lanzou/api.py:503-508 | a failed share-info request gives its code |
| Resolver.DurlByIdMasksShareError | lanzou/api.py:517-520 | a failed share info is reported as `URL_INVALID`, not with its own code |
| Resolver.DurlById | lanzou/api.py:517-520 | a definition: the share info's link and password go to `get_durl_by_url` whatever its code; stated by `DurlByIdMasksShareError` |
| Resolver.EmptyNotFileUrl | lanzou/api.py:143-146 | the empty link is not a file link |
| FolderShare.ShareEntry | lanzou/api.py:904-912 | a row raises `IndexError` exactly without separator; a converted row has a `.` in its name, its size and the link `host/id` |
| FolderShare.PageThen | lanzou/api.py:903-914 | an early end discards the page |
| FolderShare.PagingFrom | lanzou/api.py:894-923 | an early end carries a code other than `SUCCESS` |
| FolderShare.FetchPages | lanzou/api.py:894-923 | the page loop gives the result of the recursive definition, and `pg` starts at 1 and advances only after `zt == 1` |
| FolderShare.TakePage | lanzou/api.py:904-912 | the files of one page either raise or are all appended |
| FolderShare.PagingAt | lanzou/api.py:894-923 | the reply at each step decides: 1 appends the page and asks again, 2 completes, 3 is `PASSWORD_ERROR`, 4 asks again, others `FAILED`, a raised request `NETWORK_ERROR` |
| FolderShare.PageAppends | lanzou/api.py:903-914 | `zt == 1` puts that page's files, in order, in front of the later pages' |
| FolderShare.RefreshRepeats | lanzou/api.py:919-921 | `zt == 4` changes nothing but the request count |
| FolderShare.StatusesThatEnd | lanzou/api.py:915-923 | 2 completes with no more files, 3 is `PASSWORD_ERROR`, anything else but 1 and 4 `FAILED` |
| FolderShare.AbortDiscardsFiles | lanzou/api.py:894-923 | an early end returns no folder and no files |
| FolderShare.Entries | lanzou/api.py:904-912 | one file per row |
| FolderShare.PageEntries | lanzou/api.py:904-912 | a page of convertible rows puts all of them in front |
| FolderShare.Precheck | lanzou/api.py:869-892 | the checks before the loop pass exactly when the link is not a file link, the page arrived, the folder exists, a required code was given and the fields were found |
| FolderShare.OnlyFileLinksRefused | lanzou/api.py:869-870 | only a file link is refused; any other text is fetched |
| FolderShare.NonShareLinkRequested | lanzou/api.py:869-875 | the empty link is neither a file nor a folder link and is never refused as `URL_INVALID`: its page is requested, and a failed request gives `NETWORK_ERROR` |
| FolderShare.FolderChecks | lanzou/api.py:876-879 | a missing folder comes before the code check; `LACK_PASSWORD` exactly when no code was given |
| FolderShare.FolderInfoOf | lanzou/api.py:866-932 | a failure carries only its code; success has a folder with the given link and code |
| FolderShare.GetFolderInfoByUrl | lanzou/api.py:866-932 | the method gives the result of the definition |
| FolderShare.FolderYear | lanzou/api.py:924-928 | with files the year is the last file's, otherwise the date is today's |
| FolderShare.FolderTime | lanzou/api.py:924-928 | a definition: the year of the last file with the month and day shown, or today for an empty folder; stated by `FolderYear` |
| FolderShare.Assemble | lanzou/api.py:924-932 | a definition of the return after the page loop: an exception or early code passes through, a complete listing gives `SUCCESS` with the folder record and the files |
| FolderShare.FolderInfoById | lanzou/api.py:934-939 | a failed share-info request gives its code |
| Client.Failures | lanzou/api.py:955-961 | the failures are at most the items; an item whose call raises ends the loop with that exception (the same loop is at lines 990-996) |
| Client.FailuresExact | lanzou/api.py:955-961 | when no call raises, exactly the failing items are listed, each with its own code (the same loop is at lines 990-996) |
| Client.FailuresEmpty | lanzou/api.py:962-964 | nothing is listed, and nothing raised, exactly when every item succeeded (likewise for the volumes at lines 778-789) |
| Client.FailuresAppend | lanzou/api.py:779-789 | the result of two batches in a row: the first one's exception, or the failures of each, in order |
| Client.FailuresRaised | lanzou/api.py:955-961 | the loop raises exactly when some item's call raises, and then with the exception of the first such item (the same loop is at lines 779-789 and 990-996) |
| Client.Batch | lanzou/api.py:955-961 | the batch loop raises exactly when the definition does, with the same exception; otherwise it lists exactly the failures, and the code is `FAILED` exactly when there are some (the same loop is at lines 778-789 and 990-996) |
| Client.StemDropsExtension | lanzou/api.py:753-754 | a name without `.` is its own stem; otherwise only the last extension goes |
| Client.BaseName | lanzou/api.py:747 | a definition of `path.split(os.sep)[-1]`, with `os.sep` taken as `/`: the last piece of the path (also at lines 753 and 797) |
| Client.VolumeStem | lanzou/api.py:753-754 | a definition: the file name split at `.`, the single piece when there is no `.`, otherwise every piece but the last joined with `.`; stated by `StemDropsExtension` |
| Client.FolderNameOf | lanzou/api.py:772 | a definition: the first volume's name split at `.` without its last two pieces, joined with `.`, and empty for a name of one piece, as `[:-2]` of a one-element list is; stated by `FolderNameIsStem` |
| Client.FolderNameIsStem | lanzou/api.py:772 | a volume `<stem>.<tag>.rar` gives the stem as the folder name |
| Client.VolumesOf | lanzou/api.py:771 | the volumes are the listed entries that start with the stem |
| Client.ShownPrefix | lanzou/api.py:709-714 | the calls shown are a prefix of the calls, ending at the first complete one when there is one |
| Client.Shown | lanzou/api.py:709-714 | a definition: no callback shows nothing; otherwise the calls up to and including the first that reports completion are shown; stated by `ShownPrefix`, `ExtraCallSuppressed` and `UpToCompleteSkips` |
| Client.UpToComplete | lanzou/api.py:711-714 | a definition: the calls before the first whose bytes read equal the length, and that call |
| Client.ExtraCallSuppressed | lanzou/api.py:709-714 | the monitor's extra call after completion is not shown |
| Client.UpToCompleteSkips | lanzou/api.py:711-714 | incomplete calls before the rest are all shown |
| Client.VolumeNamesUnpacked | lanzou/api.py:967-970 | names `x.partN.rar` match the volume pattern |
| Client.DotlessNotVolume | lanzou/api.py:967-970 | a name without `.` never matches it |
| Client.PartTagIsRarTag | lanzou/api.py:969 | `partN.rar` matches `[a-z]+[0-9]+\.rar` |
| Client.AllVolumes | lanzou/api.py:967-970 | the loop says yes exactly when every name matches the volume pattern (the same loop is at lines 1000-1002) |
| Client.VolumeLike | lanzou/api.py:969 | a definition of `re.match(r'.+\.[a-z]+[0-9]+\.rar', name)`: a non-empty start without a newline, a `.`, letters, digits and `.rar`; stated by `VolumeNamesUnpacked`, `DotlessNotVolume` and `PartTagIsRarTag` (the same test is at line 1001) |
| Client.FileUrls | lanzou/api.py:952-953 | each file's name and link, in order |
| Client.LanZouCloud.constructor | lanzou/api.py:39-46 | the disguise is `dll` with the token, the limit 100 MiB, no archive tool |
| Client.LanZouCloud.SetMaxSize | lanzou/api.py:162-167 | under 100 gives `FAILED` and keeps the old limit; otherwise `SUCCESS` and the new limit; nothing else changes |
| Client.LanZouCloud.SetRarTool | lanzou/api.py:154-160 | a file path is kept with `SUCCESS`, anything else gives `ZIP_ERROR` and keeps the old one; a kept empty path counts as no tool afterwards (`NoTool`) |
| Client.LanZouCloud.Progress | lanzou/api.py:709-714 | the user sees a call exactly when there is a callback and the flag is clear; the flag is set by a complete call |
| Client.LanZouCloud.MonitorUpload | lanzou/api.py:707-717 | the calls shown are those of `Shown`, and the flag ends set exactly when there is a callback and some call was complete; nothing else changes |
| Client.LanZouCloud.UploadFile | lanzou/api.py:736-791 | the method gives the result of the definition over the current limit and tool, an upload's exception escaping |
| Client.LanZouCloud.UploadDir | lanzou/api.py:793-809 | the method gives the result of the definition, an upload's exception escaping |
| Client.LanZouCloud.DownDirByUrl | lanzou/api.py:941-973 | the method gives the result of the definition over the current tool, a download's exception escaping |
| Client.LanZouCloud.DownDirById | lanzou/api.py:976-1005 | the method gives the result of the definition over the current tool, a download's exception escaping |
| Client.LanZouCloud.Unpacked | lanzou/api.py:962-974 | the method gives the shared end of both folder downloads (repeated at lines 997-1005) |
| Client.Unzip | lanzou/api.py:845-864 | a definition: no tool (`NoTool`: none set, or the empty path) gives `ZIP_ERROR`, no names raise `IndexError` at line 851, a failing tool gives `ZIP_ERROR`, anything else `SUCCESS` |
| Client.UnpackedOf | lanzou/api.py:962-974 | a definition: a failed batch or a name that is not a volume returns the result as it is, otherwise `_unzip` decides; stated by `UnpackOnlyAfterFullSuccess` and `EmptyFolderDownload` |
| Client.UploadFileOf | lanzou/api.py:736-791 | a definition of `upload_file`; stated by `SmallFileUploadedWhole`, `LargeFileNeedsTool`, `VolumesReported` and `VolumeUploadRaises` |
| Client.DirFailures | lanzou/api.py:802-808 | a definition of `upload_dir`'s loop: directories skipped, a non-empty `failed` appended, an exception ending it; stated by `DirFailuresAppend`, `RaisedPersists` and `UploadDirGathers` |
| Client.DirStep | lanzou/api.py:803-808 | a definition of one pass of `upload_dir`'s loop: a set exception stays, a directory is skipped, an upload's exception ends the loop, a non-empty `failed` is appended and an empty or `None` one adds nothing; stated by `DirFailuresAppend` and `RaisedPersists` |
| Client.UploadDirOf | lanzou/api.py:793-809 | a definition of `upload_dir`; stated by `UploadDirMissesErrors`, `UploadDirGathers` and `UploadDirStopsAtRaise` |
| Client.DownDirByUrlOf | lanzou/api.py:941-974 | a definition of `down_dir_by_url`; stated by `DownloadFailuresExact`, `DownloadRaises`, `UnpackOnlyAfterFullSuccess` and `EmptyFolderDownload` |
| Client.DownDirByIdOf | lanzou/api.py:976-1005 | a definition of `down_dir_by_id`; stated by `EmptyIdListFails` and `DownloadByIdRaises` |
| Client.DirFailuresAppend | lanzou/api.py:802-808 | one more entry is one more loop step |
| Client.RaisedPersists | lanzou/api.py:805 | once an upload has raised, the exception is the loop's result |
| Client.SmallFileUploadedWhole | lanzou/api.py:742-747 | a file within the limit is uploaded once: its exception escapes, or its code is the result, with its own name as the one failure |
| Client.LargeFileNeedsTool | lanzou/api.py:750-751 | a file over the limit without a tool (none set, or the empty path) gives `ZIP_ERROR` and `failed: None` |
| Client.NoTool | lanzou/api.py:750 | a definition of `not self._rar_path`: no path set, or the empty path stored (the same test is at line 847) |
| Client.VolumesReported | lanzou/api.py:771-791 | when no upload raised, the failed entries are exactly the volumes whose upload failed, and the code is `SUCCESS` exactly when there are none |
| Client.VolumeUploadRaises | lanzou/api.py:779-789 | a volume upload that raises ends `upload_file` with its exception: the result raises exactly when some volume raises, with the first one's exception |
| Client.UploadDirMissesErrors | lanzou/api.py:805-808 | an upload with `failed: None` leaves the result at `SUCCESS` |
| Client.UploadDirGathers | lanzou/api.py:802-808 | for any entries none of whose uploads raises, the result lists the file entries' failed lists joined in order, directories and `failed: None` adding nothing, and is `SUCCESS` exactly when that list is empty |
| Client.DirFailuresGathered | lanzou/api.py:802-808 | when no upload raises, the loop's list is the concatenation of each entry's piece |
| Client.UploadDirStopsAtRaise | lanzou/api.py:805 | an upload that raises ends `upload_dir` with its exception |
| Client.UnpackOnlyAfterFullSuccess | lanzou/api.py:962-973 | `ZIP_ERROR` with no failures means every download succeeded, every name is a volume, and there was no tool (none set, or the empty path) or the tool failed |
| Client.DownloadFailuresExact | lanzou/api.py:952-961 | when the result is `FAILED`, no download raised and the failed downloads are exactly the files whose download failed, in name order, the last file of a name standing for it |
| Client.DownloadRaises | lanzou/api.py:955-961 | a `down_file_by_url` that raises (as at lines 822-823) ends `down_dir_by_url` with the first such exception |
| Client.DownloadByIdRaises | lanzou/api.py:990-996 | a `down_file_by_id` that raises ends `down_dir_by_id` with the first such exception |
| Client.EmptyFolderDownload | lanzou/api.py:966-973 | an empty folder gives `ZIP_ERROR` without a tool (none set, or the empty path) and raises `IndexError` with one (`_unzip` indexes `file_list[0]` at line 851) |
| Client.EmptyIdListFails | lanzou/api.py:978-980 | `down_dir_by_id` with no files is `FAILED` with no failures |

## Left out

- HTTP transport, sessions, cookies, `login`, `logout`, `login_by_cookie`: network plumbing. Every response is an input, and `None` stands for a failed request. The model does not tell a request that raised from one whose response fails Python's truth test.
- The regex scraping of pages and `_remove_notes`: a faithful model would need Python's regex engine. The captured fields are inputs, assumed found unless the source catches the failure, as in `get_folder_info_by_url`. An `IndexError` from a pattern that finds nothing elsewhere is not modelled.
- `eval` of the scraped `data : {...}` literal and the `sg` substitution: the reply to the POST built from it is an input.
- JSON decoding: replies are given already decoded, so a reply that is not JSON is not modelled.
- `delete`, `clean_rec`, `delete_rec`, `recovery`, `set_passwd`, `mkdir`, `_set_dir_info`, `rename_dir`, `set_desc`, `rename_file`, `get_folders_id_name`, `get_folders_name_id`, `move_file`, `move_folder`, `get_full_path`: their meaning lives in the remote state. `mkdir` appears only as an input function giving an id or `None`.
- `_upload_a_file` and `down_file_by_url`/`down_file_by_id`: their result codes are input functions. This covers the multipart upload, deleting a same-named file, the filler ("fake") file uploaded before each volume, and streaming the download to disk.
- `rar` invoked through `os.popen`, and all file-system work (`isfile`, `getsize`, `listdir`, `makedirs`, `rmtree`, `remove`): external processes and I/O. Their answers are inputs: `isFile`, `size`, `rarFails`, `unpackFails` and the `./tmp` listing.
- `os.sep` is taken to be `/`.
- `sleep(1)` on status 4: it only delays the next request.
- `datetime.today()` and `strftime`: today is a day number handed in, and the calendar that writes a day as `%Y-%m-%d` is an input function. A day is its `date.toordinal()`, and the range Python's `datetime` holds is modelled. Today itself is not checked against that range, since the clock always reads a day inside it.
- `random.sample`: the five-letter token is a constructor argument that must be five ASCII lower-case letters.
- Unicode: `\d` and `[a-z]` are taken as ASCII, `lower()` changes only ASCII letters, and `int()` accepts ASCII white space, a sign and ASCII digits.
- The callback's file-name argument is not modelled; only which calls reach the callback is.
- NameCodec.ConfusedName: requires a `.` in the sanitised name, where the source raises `IndexError` at `fn_list[-2]` (line 108); no caller inside the model passes a dotless name, but `upload_file` on a small dotless file would raise here inside `_upload_a_file`, which is an input function.
- `KeyError` on a missing JSON field is not modelled, except for the `get_share_info` fields `onof`, `pwd`, `is_newd`, `new_url`, `name` and `des` (lines 537-548), the `inf` of the link-info reply (line 462) and the `Location` header of the redirect (line 495), which the model checks. The fields taken as present are these:
  - the `info` and `text` of a listing reply (lines 372 and 377) and each row's `name_all`, `id`, `time`, `size`, `downs`, `onof` and `is_des` (lines 378-387);
  - the `zt`, `dom` and `url` of the link-info reply (lines 493-494);
  - the `zt` and `text` of a folder-page reply (lines 903-904) and each row's `name_all`, `time`, `size` and `id` (lines 905-911);
  - the `info` of the share-info reply (line 530) and the `text` and `info` of the file-description reply (lines 543-544).
- Strings.ParseInt: Python's `int()` also accepts `_` between digits (`int("1_0")` is 10) and treats the separators `\x1c`-`\x1f` as white space; the model refuses both.
- Listing.GetFileList: requires that some reply ends the listing; the source requests forever when none does.
- Listing.FileIdList: requires that some reply ends the listing, for the same reason.
- FolderShare.FetchPages: requires that some reply ends the page loop; the source requests forever when none does.
- FolderShare.FolderInfoOf: requires that some reply ends the page loop once the checks pass, for the same reason.
- FolderShare.GetFolderInfoByUrl: the same requirement.
- FolderShare.FolderInfoById: the same requirement.
- Resolver.FileInfoById: a failed share-info request gives every field empty, including `pwd` and `url`, which the source's dict leaves out.
- `get_rec_dir_list`, `get_rec_file_list`: `int(fid)` of a `\d+` capture cannot fail, so ids are given as natural numbers.

## Findings

| source | as written | input that shows it | evidently intended | confidence | as-written member | corrected member |
|---|---|---|---|---|---|---|
| lanzou/api.py:112 | an unlisted extension is dropped: `'#'.join(fn_list[:-1])` leaves out the last component, so the disguised name loses the extension | `photo.heic` is uploaded as `photo.dll` and listed back as `photo.dll` | keep every component, `'#'.join(fn_list)`, so that decoding gives the name `photo.heic` back, as the comment at lines 135-136 about `filename.v2.3.dll` expects; the corrected member does not change the type, which stays `dll` (the disguise suffix, lower-cased) | high, not executed | NameCodec.UnlistedExtensionLost, NameCodec.PhotoHeicLosesExtension | NameCodec.IntendedRoundTrip, NameCodec.ConfusedNameIntended |

The rest of the model follows the source's `_get_confused_name` as written. No other member uses
the encoder, so the corrected definition stands beside it with its round trip proved.
