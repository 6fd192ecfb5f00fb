# viner harvesters, modelled in Dafny

This project models the decision logic of four small Go programs that rebuild the
Vine archive:

- **The full harvester** (`vine_full_harvest.go`).
  - It scans tweet dumps for `vine.co/v/<slug>` links.
  - It seeds posts and user ids from those slugs.
  - For every user it fetches the profile when it is missing, the posts the profile
    lists, and optionally their media.
- **The fast harvester** (`fast_harvest_vine.go`).
  - It reads a list of user ids, in either of two JSON layouts.
  - It always refreshes a user's profile.
  - It fetches only the posts whose file is missing.
- **The slug scanner service** (`vine-harvester/vine_full_harvest.go`).
  - Its input and output are a local directory or an `s3://bucket/prefix`.
  - It lists the `.txt` inputs, paging through bucket listings.
  - It collects every slug and writes them to `vine_slugs.txt`, one per line.
- **The tweets-to-profiles program** (`vine_profiles_from_vinetweets.go`).
  - It takes the second field of every tweet line and pulls out the Vine id.
  - It asks the archive for each id's post.
  - It writes the set of posters' `userIdStr` values as a JSON array.

How the model represents each part:

- **JSON.** A decoded document is one tagged union. An object is a sequence of
  fields, in the order the document writes them. Two kinds of reading use it:
  - A decode into a `map[string]interface{}` keeps one value per key and forgets the
    order. There the fields stand for any of Go's map iteration orders, and the
    claims about such maps (lookups, the deep scans, the media walk, the rewrite)
    hold whatever that order is.
  - A decode into a struct reads the keys in document order, and a later matching
    key overwrites an earlier one. The claims about the `Post` struct of the
    tweets-to-profiles program (VineTweets.ScanUserId, VineTweets.DecodePostObject,
    VineTweets.UserOfFields) depend on that order: the last match wins.
- **Strings.** Go strings are sequences of characters. The model holds the subset of
  `strings`, `unicode` and `fmt` that the programs use:
  - ReplaceAll, leftmost and non-overlapping;
  - Index;
  - TrimSpace, with the `unicode.IsSpace` set;
  - Trim, TrimLeft and TrimRight;
  - Fields;
  - ToLower, as far as a comparison with an ASCII literal can see it;
  - `%.0f` of an integral number.
- **The outside world.** The network and the file system are an `Archive.Env`:
  - fixed answer functions for profile and post requests;
  - a media-success predicate;
  - url.Parse's path;
  - a writability predicate;
  - the `-download` flag.

  The output tree is a map from paths to saved documents. A harvester step is a
  pure function on a `State`: the store, the media URLs claimed in this process, the
  users recorded, and the log of archive requests.
- **Concurrency.** Worker pools are modelled as the sequential processing of their
  job lists. Every shared map or set becomes a plain set.

The modules are:

- `Results`: Option and Result.
- `Pools`: what a `-workers` flag meets in Go: the 64-bit int and its wrap-around,
  the largest buffer `make(chan job, n)` accepts, and the clamp to one worker.
- `Seqs`: Filter, KeepFirst and set folds.
- `Text`.
- `Json`.
- `Archive`: the world and the store.
- `EntityIds`: the string-or-number id fallback, and loadUserIDs.
- `Rewrite`: both rewriteURLs variants.
- `PostIds`: collectPostIDsFromProfile.
- `Media`: collectMediaURLs and downloadMedia.
- `SlugScan`: the slug regular expression, as a hand-written scanner.
- `Storage`: the slug scanner service.
- `FullHarvest`.
- `FastHarvest`.
- `VineTweets`: the tweets-to-profiles program.

## Model

| member | source | states |
|---|---|---|
| Archive.WriteDoc | vine_full_harvest.go:389-405 | a successful write puts the document at its path and touches no other file; a failed write leaves the tree as it was |
| EntityIds.StrOrNum | vine_full_harvest.go:212-217 | the id is the non-empty string under the string key whenever there is one; otherwise the number under the numeric key, rendered in decimal without spaces; nothing only when neither exists |
| EntityIds.NumericIdReadsBack | vine_full_harvest.go:215-216 | an id taken from a number parses back to that number |
| EntityIds.NumericIdsDistinguish | vine_full_harvest.go:223-224 | two posts whose numeric ids render alike hold the same number, so distinct posts get distinct file names |
| EntityIds.UserIdOf | vine_full_harvest.go:212-217 | the owner is the non-empty `userIdStr` when there is one, else the numeric `userId` rendered as "%.0f" renders it; a post has no owner ("") exactly when it has neither |
| EntityIds.PostIdOf | vine_full_harvest.go:220-227 | the real post id is the non-empty `postIdStr` when there is one, else the numeric `postId` rendered as "%.0f" renders it, else the requested slug; it is never empty when the request was not |
| EntityIds.DecodeStringsExact | fast_harvest_vine.go:110-111 | reading a document as []string yields a given list without error exactly when the document is null (for the empty list) or an array whose every element is that entry's string, or null for an empty entry |
| EntityIds.DecodeObjectsExact | fast_harvest_vine.go:116-117 | reading a document as []map yields given member lists without error exactly when it is null (for none) or an array whose every element is that entry's object, or null for an empty map |
| EntityIds.DecodersOverlap | fast_harvest_vine.go:109-117 | both readings of the user list accept a document only when it names no user at all: null, or an array of nulls |
| EntityIds.ObjectIds | fast_harvest_vine.go:118-124 | each object contributes at most one id, which is non-empty and comes from that object; every object that names a user contributes it |
| EntityIds.ObjectIdsAppend | fast_harvest_vine.go:118-124 | the range loop appends: the ids of two runs of objects are those of the first run followed by those of the second |
| EntityIds.ObjectIdsSingle | fast_harvest_vine.go:119-123 | one object contributes its non-empty string `userIdStr`, else its non-empty string `userId`, else nothing |
| EntityIds.LoadStringList | fast_harvest_vine.go:109-113 | a non-empty array of strings is returned verbatim, order and duplicates kept, by both readings of loadUserIDs |
| EntityIds.LoadObjectsAsWrittenPads | fast_harvest_vine.go:110-126 | as written, an array of n objects loads with n leading empty ids |
| EntityIds.LoadObjectsAsWrittenExample | fast_harvest_vine.go:110-126 | as written, one object naming user "7" loads as ["", "7"] |
| EntityIds.LoadObjectsExact | fast_harvest_vine.go:115-126 | as intended, an array of objects and nulls with at least one object loads as the ids of its elements' member lists, in array order |
| EntityIds.LoadObjectsFixed | fast_harvest_vine.go:115-126 | as intended, such an array loads as exactly the ids of its elements' member lists, in order (so, by ObjectIdsAppend and ObjectIdsSingle, one per naming object); at most one non-empty id per object, each from some object, and every named user is included |
| EntityIds.LoadObjectsConcat | fast_harvest_vine.go:115-126 | as intended, the list loaded from two object arrays joined is the list of the first followed by the list of the second |
| EntityIds.LoadObjectSingle | fast_harvest_vine.go:115-126 | as intended, a one-object array loads as that object's user, or as the empty list when it names none |
| EntityIds.LoadOtherwiseEmpty | fast_harvest_vine.go:103-127 | a document that is not an array lists no users |
| Pools.Wrap | vine_profiles_from_vinetweets.go:62 | an int product wraps to a value in int range |
| Pools.WrapInRange | vine_profiles_from_vinetweets.go:62 | a product in range does not wrap |
| Pools.WrapPeriodic | vine_profiles_from_vinetweets.go:62 | products that differ by 2^64 wrap to the same int |
| Pools.DoubleWrap | vine_profiles_from_vinetweets.go:62 | `workers*2` turns negative from 2^62 up, gains 2^64 below -2^62, and is exact in between |
| Pools.DoubledChanPanics | vine_profiles_from_vinetweets.go:62 | a channel sized `workers*2` panics exactly for a negative count from -2^62 up, a count whose double exceeds the buffer limit, or a count below -2^62 whose wrapped double does |
| Pools.DoubleMinInt | vine_profiles_from_vinetweets.go:62 | the smallest int doubles to 0 |
| Pools.EffectiveWorkers | vine-harvester/vine_full_harvest.go:294-297 | the clamped worker count is at least 1 and equals any positive flag value |
| Json.Lookup | vine_full_harvest.go:213 | `m[k]` is absent exactly when no field has key k, and otherwise is the value of a field with key k |
| Json.MapStrings | vine_full_harvest.go:414-438 | the recursive visitor keeps the shape: same containers, keys, array lengths and non-string leaves |
| Json.MapStringsEstablishes | vine_full_harvest.go:426-434 | if every output of the string map has a property, every string leaf of the result has it |
| Json.MapStringsIdentity | vine_full_harvest.go:414-438 | a document whose strings the map fixes comes back unchanged |
| Json.MapStringsIdempotent | vine_full_harvest.go:414-438 | visiting twice with an idempotent string map is visiting once |
| Media.CollectMedia | vine_full_harvest.go:515-541 | every URL reported mentions the mirror host and one of .mp4/.jpg/.jpeg/.png/.gif |
| Media.ItemsMedia | vine_full_harvest.go:524-527 | the array case of the walk reports only media URLs |
| Media.FieldsMedia | vine_full_harvest.go:520-523 | the object case of the walk reports only media URLs |
| Media.CollectMediaCounts | vine_full_harvest.go:515-541 | each media string is reported exactly as often as it occurs as a leaf, at any depth and in any field order, and no other string is reported |
| Media.ItemsMediaCounts | vine_full_harvest.go:524-527 | the same count for the elements of an array |
| Media.FieldsMediaCounts | vine_full_harvest.go:520-523 | the same count for the values of an object |
| Media.DownloadMedia | vine_full_harvest.go:543-562 | an unparsable URL is refused; a parsable one is claimed; only a media file can appear; no file is replaced; the only request is for that URL |
| Media.DownloadMediaOnce | vine_full_harvest.go:549-555 | no URL is ever requested twice in a process, and only after it was claimed; the only new file is the URL's own path, holding its bytes |
| Media.DownloadMediaIdempotent | fast_harvest_vine.go:400-406 | a URL handled once is a no-op the second time |
| Media.DownloadAll | vine_full_harvest.go:340-348 | the media step claims exactly the post's parsable URLs, keeps every existing file and adds only media files |
| Media.DownloadAllClaimed | vine_full_harvest.go:549-553 | a media step whose URLs are all claimed already changes nothing |
| Media.DownloadAllSpec | fast_harvest_vine.go:185-192 | across a whole media step each URL is still requested at most once in the process |
| PostIds.AddId | vine_full_harvest.go:446-456 | addID keeps `seen` equal to the set of `out`, with the ids distinct, non-empty and trimmed |
| PostIds.AddAll | vine_full_harvest.go:446-456 | feeding many candidates to addID keeps that invariant |
| PostIds.NormalizedMember | vine_full_harvest.go:446-456 | an id is kept exactly when it is some candidate, trimmed, and not empty |
| PostIds.AddIdKeepsFirst | vine_full_harvest.go:446-456 | one addID call extends the first-occurrence list of the trimmed, non-empty candidates seen so far |
| PostIds.AddAllKeepsFirst | vine_full_harvest.go:446-456 | from scratch, addID computes exactly the first occurrences of the trimmed, non-empty candidates, in order |
| PostIds.ItemIdFoundByDeepScan | vine_full_harvest.go:467-471 | an id an object element of `posts` names is held under one of that element's postId-like keys, so the fallback deep scan would find the same id |
| PostIds.ItemIds | vine_full_harvest.go:459-479 | the candidates of the `posts` list are exactly the ids its items name |
| PostIds.ItemIdsAppend | vine_full_harvest.go:461-477 | the loop over `posts` appends: the candidates of two runs of items are those of the first followed by those of the second |
| PostIds.ItemIdsSingle | vine_full_harvest.go:461-477 | one item contributes the id it names, or nothing |
| PostIds.DeepCandidatesFound | vine_full_harvest.go:482-507 | the deep scan finds exactly the string or number values held under a key that lower-cases to "postid" or "postidstr", at any depth, including inside such a value |
| PostIds.ObjectCandidatesFound | vine_full_harvest.go:486-498 | the object case of the deep scan: a field's own candidate, then everything inside its value |
| PostIds.ArrayCandidatesFound | vine_full_harvest.go:499-502 | the array case of the deep scan: everything inside any element |
| PostIds.CollectPostIdsSpec | vine_full_harvest.go:442-511 | the result is the `posts` ids when there are any, else the deep-scan ids; either way first occurrences in order, duplicate-free, non-empty and trimmed |
| PostIds.ItemIdsSound | vine_full_harvest.go:461-477 | every id taken from the `posts` list is named by one of its items |
| PostIds.ItemIdsComplete | vine_full_harvest.go:461-477 | every id an item names is taken |
| PostIds.ItemIdsMember | vine_full_harvest.go:461-477 | the trimmed, non-empty candidates of the list are exactly the trimmed, non-empty ids its items name |
| PostIds.PostsListMember | vine_full_harvest.go:459-479 | the ids kept from a `posts` list are exactly the trimmed, non-empty ids its items name |
| PostIds.FromPosts | fast_harvest_vine.go:303-326 | when `posts` names any usable id, the result is exactly the trimmed ids it names and the deep scan is not used |
| PostIds.FromDeepScan | fast_harvest_vine.go:354-357 | when `posts` names nothing usable, the result is exactly the trimmed ids found under postId-like keys anywhere |
| Rewrite.MirrorIsSafe | vine_full_harvest.go:429-432 | the mirror prefix cannot re-create any of the four legacy prefixes it replaces |
| Rewrite.MtcPrefixesSafe | fast_harvest_vine.go:273-274 | the two mtc prefixes cannot overlap, so their replacements commute |
| Rewrite.GuardsCoverPrefixes | vine_full_harvest.go:428 | a string without ".cdn.vine.co" holds no legacy prefix, and one without "v.cdn.vine.co" holds no video-CDN prefix |
| Rewrite.MirrorStep | vine_full_harvest.go:429-432 | each replacement removes its own prefix and introduces none of the others |
| Rewrite.FixFullCleans | vine_full_harvest.go:428-433 | after the full harvester's rewrite no string holds http(s)://v.cdn.vine.co or http(s)://mtc.cdn.vine.co |
| Rewrite.FixFullOfClean | vine_full_harvest.go:426-434 | a string without legacy prefixes, including any string the guard skips, comes back unchanged |
| Rewrite.FixFullIdempotent | vine_full_harvest.go:426-434 | rewriting a string twice is rewriting it once |
| Rewrite.RewriteFullCleans | vine_full_harvest.go:414-438 | the document keeps its shape and no string leaf keeps a legacy prefix |
| Rewrite.RewriteFullOfClean | vine_full_harvest.go:414-438 | a document without legacy prefixes is returned as it is |
| Rewrite.RewriteFullIdempotent | vine_full_harvest.go:414-438 | rewriting a document twice equals rewriting it once |
| Rewrite.FixFastCleans | fast_harvest_vine.go:270-275 | after the fast rewrite no video-CDN prefix is left, and when the guard fired no mtc prefix either |
| Rewrite.FixFastOfClean | fast_harvest_vine.go:253-255 | existing mirror URLs, and any string without legacy prefixes, are left as they are |
| Rewrite.FixFastIdempotent | fast_harvest_vine.go:268-276 | the fast string rewrite is idempotent |
| Rewrite.RewriteFastCleans | fast_harvest_vine.go:256-280 | the fast rewrite keeps the shape and leaves no video-CDN prefix in any string leaf |
| Rewrite.RewriteFastIdempotent | fast_harvest_vine.go:256-280 | the fast document rewrite is idempotent |
| Rewrite.VariantsAgree | fast_harvest_vine.go:270-274 | the two variants agree on every string naming the video host, whatever the order of the mtc steps, and on every string needing no rewrite |
| Rewrite.MtcOnlyDiffers | fast_harvest_vine.go:270 | a string whose only legacy host is https://mtc.cdn.vine.co is kept by the fast variant and rewritten by the full one |
| Rewrite.MirrorPrefixStays | fast_harvest_vine.go:253-255 | a mirror URL with a clean path survives every replacement step |
| Rewrite.MtcStepsStay | fast_harvest_vine.go:273-274 | the last two steps, in either order, keep such a mirror URL |
| Rewrite.VideoUrlNamesCdn | vine_full_harvest.go:428 | a URL on the video CDN passes both guards |
| Rewrite.HttpVideoUrlMoves | vine_full_harvest.go:429 | http://v.cdn.vine.co + path becomes https://vines.s3.amazonaws.com + the same path, under both variants |
| Rewrite.HttpsVideoUrlMoves | vine_full_harvest.go:430 | the same for https://v.cdn.vine.co + path |
| Seqs.KeepFirst | vine_full_harvest.go:451-455 | the first-occurrence list is duplicate-free and holds exactly the elements of its input |
| Seqs.AddFoundSpec | vine_profiles_from_vinetweets.go:83-85 | the set a pass builds holds what it started with and exactly the values found for some element, in any order |
| SlugScan.RunEnd | vine-harvester/vine_full_harvest.go:147 | `[A-Za-z0-9]+` is greedy: the run ends at the line end or at the first other character |
| SlugScan.MatchAt | vine-harvester/vine_full_harvest.go:147 | where the marker and a letter or digit occur, the match captures the whole following run |
| SlugScan.ScanFrom | vine-harvester/vine_full_harvest.go:158 | every reported match is the marker followed by a maximal non-empty run of letters and digits; the matches are in order and do not overlap |
| SlugScan.ScanFromCovers | vine-harvester/vine_full_harvest.go:158 | no place where the pattern could start is skipped: each lies inside a reported match, so the matches are leftmost |
| SlugScan.SlugsAreRuns | vine-harvester/vine_full_harvest.go:157-167 | every slug taken from a line is the whole run of letters and digits right after an occurrence of `vine.co/v/` in it |
| SlugScan.SlugsExist | vine-harvester/vine_full_harvest.go:158-161 | a line yields a slug exactly when the pattern can start somewhere in it |
| SlugScan.SlugIsTrimmed | vine_full_harvest.go:166-167 | a slug is non-empty and has no surrounding white space |
| SlugScan.AddLine | vine-harvester/vine_full_harvest.go:162-169 | a line only grows the slug set, and only by its own slugs |
| SlugScan.AddLineTrimmed | vine_full_harvest.go:163-170 | the full harvester's line step only grows the set |
| SlugScan.AddLineTrimmedSame | vine_full_harvest.go:166-168 | the full harvester's trimming and emptiness check never change which slugs are kept |
| SlugScan.AddLineNoMatch | vine-harvester/vine_full_harvest.go:159-161 | a line with no match leaves the set unchanged |
| SlugScan.AddLines | vine-harvester/vine_full_harvest.go:156-170 | scanning lines never removes a slug |
| SlugScan.AddLinesSpec | vine-harvester/vine_full_harvest.go:156-170 | after a scan the set holds exactly the earlier slugs and those of the lines |
| SlugScan.ScanInputs | vine_full_harvest.go:142-174 | the walk over all inputs, skipping unreadable ones, never removes a slug |
| SlugScan.ScanInputsSpec | vine_full_harvest.go:142-174 | the walk ends with exactly the slugs of the readable inputs' lines |
| Storage.ParsePath | vine-harvester/vine_full_harvest.go:89-111 | the location is a bucket exactly when the text starts with "s3://"; a local path is kept whole with an empty bucket and prefix; a bucket holds no "/" and a prefix is empty or ends in "/" |
| Storage.ParseRoundTrip | vine-harvester/vine_full_harvest.go:91-105 | "s3://b/q", with b free of "/" and q empty or ending in "/", parses to bucket b and prefix q |
| Storage.ParseBareBucket | vine-harvester/vine_full_harvest.go:91-105 | "s3://b" and "s3://b/" both give an empty prefix |
| Storage.ParseAddsSlash | vine-harvester/vine_full_harvest.go:98-100 | a prefix written without its trailing "/" gets one |
| Storage.ParseRender | vine-harvester/vine_full_harvest.go:89-111 | writing a parsed bucket location out and parsing it again gives the same location |
| Storage.TxtListingMembers | vine-harvester/vine_full_harvest.go:120-141 | a listing holds exactly the ".txt" keys (any case) of the pages read before the one that ends it |
| Storage.ListTxtObjects | vine-harvester/vine_full_harvest.go:114-144 | the paging loop computes the reference listing; it starts with no token, sends each truncated page's next token, and stops at the first page that does not continue or at an error |
| Storage.ListLocalTxtFiles | vine-harvester/vine_full_harvest.go:193-208 | the local listing fails exactly when the walk reports an error; otherwise it holds exactly the paths of regular files with a ".txt" name |
| Storage.SlugsTargetOf | vine-harvester/vine_full_harvest.go:236-254 | the slug file is the key Prefix + "vine_slugs.txt" whether or not the prefix was written with its "/", or that name in the local directory |
| Storage.SlugsBlobRoundTrip | vine-harvester/vine_full_harvest.go:229-234 | splitting the slug file at newlines gives back the slug list, then the empty text after the last newline |
| Storage.SlugFileRoundTrip | vine-harvester/vine_full_harvest.go:222-234 | that holds for any listing of a scanned slug set, since no slug holds a newline |
| Storage.RunOnce | vine-harvester/vine_full_harvest.go:262-343 | with the clamp first, a run crashes only for a bucket input, a successful listing and a clamped count above the platform's buffer limit, and never for a count within it; it fails with a missing argument exactly when either directory is empty; a bucket input has at least one worker; the slug file goes to the output's target |
| Storage.RunOnceAgrees | vine-harvester/vine_full_harvest.go:291-297 | the program as written crashes exactly for a bucket input, a successful listing and a worker count that is negative or above the buffer limit; the corrected run crashes exactly when the count is above the limit; a run that does not crash as written behaves as the corrected run |
| Storage.RunOnceCrashExample | vine-harvester/vine_full_harvest.go:291 | input "s3://b" with -workers=-1 crashes as written and writes an empty slug file once corrected |
| Storage.RunOnceSlugs | vine-harvester/vine_full_harvest.go:275-337 | a successful run writes exactly the slugs of the readable listed inputs |
| Text.IndexOf | vine_profiles_from_vinetweets.go:185 | strings.Index is -1 exactly when the pattern is absent, and otherwise the first place it occurs |
| Text.ReplaceAbsent | vine_full_harvest.go:429 | replacing an absent pattern changes nothing |
| Text.ReplaceSplice | vine_full_harvest.go:429 | leftmost replacement keeps the text before the first occurrence and continues right after it |
| Text.ReplaceEliminates | vine_full_harvest.go:429-432 | with a safe replacement, no occurrence of the pattern survives |
| Text.ReplaceKeepsAbsent | vine_full_harvest.go:429-432 | a safe replacement creates no occurrence of an absent pattern |
| Text.ReplaceCommute | fast_harvest_vine.go:273-274 | two non-overlapping patterns replaced by a safe common replacement may be replaced in either order |
| Text.TrimLeftBy | vine_full_harvest.go:557 | TrimLeft drops exactly the leading run of cut characters, leaving a suffix |
| Text.TrimRightBy | vine_profiles_from_vinetweets.go:201 | TrimRight drops exactly the trailing run of cut characters, leaving a prefix |
| Text.TrimByCharacterized | vine_profiles_from_vinetweets.go:194 | Trim's result is the one slice of the input that is cut around only by cut characters and has none at either end |
| Text.TrimSpaceCharacterized | vine_full_harvest.go:447 | TrimSpace's result is the one slice of the input that is cut around only by white space and has none at either end |
| Text.ToLowerMatches | vine_full_harvest.go:488 | a lower-cased key equals an ASCII literal without capitals exactly when it spells the literal letter by letter in either case, with U+0130 for 'i' and the Kelvin sign for 'k' |
| Text.Fields | vine_profiles_from_vinetweets.go:142 | every field is a non-empty run of non-space characters |
| Text.FieldsCoverText | vine_profiles_from_vinetweets.go:142 | together the fields hold exactly the non-space characters of the line, in order |
| Text.TrimLeftAppend | vine_profiles_from_vinetweets.go:139 | TrimLeft of a joined text trims the second part only when the first is all cut characters |
| Text.FieldsAfterSpaces | vine_profiles_from_vinetweets.go:139-142 | white space in front of a text does not change its fields |
| Text.FieldsBeforeSpaces | vine_profiles_from_vinetweets.go:139-142 | white space after a text does not change its fields |
| Text.FieldsOfTrimSpace | vine_profiles_from_vinetweets.go:139-142 | the fields of the trimmed line are the fields of the line |
| Text.Decimal | vine_full_harvest.go:216 | a number is rendered as a non-empty text without spaces |
| Text.DecimalRoundTrip | vine_full_harvest.go:216 | the rendered number reads back as itself |
| Text.DecimalInjective | vine_full_harvest.go:224 | distinct numbers render differently |
| VineTweets.StripScheme | vine_profiles_from_vinetweets.go:179-183 | dropping the scheme leaves a suffix of the URL |
| VineTweets.CutQuery | vine_profiles_from_vinetweets.go:191-193 | cutting at the first "?" leaves the prefix before it, with no "?" |
| VineTweets.ExtractVineId | vine_profiles_from_vinetweets.go:170-196 | the id is "" when "vine.co/v/" is absent; it never holds "?" and never starts or ends with "/", space or tab |
| VineTweets.IdAfterSlashV | vine_profiles_from_vinetweets.go:185-195 | what follows "/v/" is cut at its query and trimmed of "/", space and tab |
| VineTweets.ExtractFindsSlashV | vine_profiles_from_vinetweets.go:175-188 | once "vine.co/v/" is present, "/v/" is found after the scheme is stripped, so the -1 branch cannot be taken |
| VineTweets.SchemeHasNoV | vine_profiles_from_vinetweets.go:179-183 | stripping the scheme never removes a "v" |
| VineTweets.ExtractOfLink | vine_profiles_from_vinetweets.go:171-174 | a link with no scheme, http:// or https://, with or without a trailing "/" or a query, yields exactly its run of letters and digits after "vine.co/v/" |
| VineTweets.LineVideoId | vine_profiles_from_vinetweets.go:138-150 | an id a line yields is non-empty, has no "?" and is trimmed |
| VineTweets.VideoIdOfFields | vine_profiles_from_vinetweets.go:143-150 | an id taken from a line's fields is the Vine id of the second field, which exists; it is non-empty, has no "?" and is trimmed |
| VineTweets.LineVideoIdOfFields | vine_profiles_from_vinetweets.go:138-146 | trimming the line first does not change its fields, so the id depends only on strings.Fields of the raw line |
| VineTweets.LineVideoIdSpec | vine_profiles_from_vinetweets.go:138-150 | for every line, whatever its white space: nothing when it has fewer than two fields or the second field's Vine id is empty, otherwise that id |
| VineTweets.ShortLine | vine_profiles_from_vinetweets.go:143-146 | a line with fewer than two fields, such as "" or "123", yields nothing |
| VineTweets.TweetFields | vine_profiles_from_vinetweets.go:138-146 | for a line of optional leading white space, the tweet id, any non-empty run of white space, the URL and anything after white space, the first field is the tweet id and the second the URL |
| VineTweets.LineOfTweet | vine_profiles_from_vinetweets.go:137-151 | such a tweet line yields exactly the Vine id of its URL, or nothing when that is empty |
| VineTweets.CollectVideoIds | vine_profiles_from_vinetweets.go:117-157 | the walk only grows the id set |
| VineTweets.CollectVideoIdsSpec | vine_profiles_from_vinetweets.go:112-168 | an id is collected exactly when some line of some readable "*.txt" file yields it; walk errors, directories, other names and unreadable files contribute nothing |
| VineTweets.CollectedIdsClean | vine_profiles_from_vinetweets.go:147-151 | every collected id is non-empty and free of "?" |
| VineTweets.Limit | vine_profiles_from_vinetweets.go:46-49 | a positive limit below the id count keeps exactly that many ids from the front; otherwise the list is unchanged |
| VineTweets.PostUrl | vine_profiles_from_vinetweets.go:201 | the post URL starts with the base, trailing slashes removed, and one "/", and ends in ".json" |
| VineTweets.PostUrlEscapedId | vine_profiles_from_vinetweets.go:201 | between that prefix and ".json" the URL holds exactly the escaped id |
| VineTweets.PostUrlDeterminesId | vine_profiles_from_vinetweets.go:201 | two ids give the same post URL exactly when they escape alike |
| VineTweets.PostUrlsDistinct | vine_profiles_from_vinetweets.go:201 | with an escape that can be undone, distinct ids are fetched from distinct URLs |
| VineTweets.PostUrlSlashes | vine_profiles_from_vinetweets.go:201 | trailing slashes on the base URL do not change the post URL |
| VineTweets.UserIdKeyExamples | vine_profiles_from_vinetweets.go:20-22 | the struct tag matches "userIdStr" case-insensitively, including the long-s fold, and not other keys; U+0130 and U+0131 do not stand for its "I" |
| VineTweets.ScanUserId | vine_profiles_from_vinetweets.go:222-226 | decoding fails exactly when a matching key holds a non-string, non-null value; otherwise the field is the last matching string, or stays as it was |
| VineTweets.DecodePost | vine_profiles_from_vinetweets.go:222-227 | a null post decodes without error; any document other than an object or null is a type error |
| VineTweets.DecodePostObject | vine_profiles_from_vinetweets.go:222-227 | an object whose matching keys hold strings or nulls decodes, to the last string among them |
| VineTweets.UserOfFields | vine_profiles_from_vinetweets.go:71-81 | a fetched post object names user u exactly when u is not empty, no key matching `userIdStr` holds anything but a string or null, and the last matching key holding a string holds u |
| VineTweets.UserListDoc | vine_profiles_from_vinetweets.go:240-246 | profiles.json read back as []string gives exactly the list written, without error; read as []map it is accepted only when the list is empty |
| VineTweets.UserListRoundTrip | vine_profiles_from_vinetweets.go:232-247 | the fast harvester's loadUserIDs reads back exactly the list written |
| VineTweets.Run | vine_profiles_from_vinetweets.go:33-108 | the corrected run does not crash when twice the clamped count fits the platform's buffer limit, and stops early exactly when no id was collected |
| VineTweets.RunUsers | vine_profiles_from_vinetweets.go:79-85 | the written set is exactly the non-empty `userIdStr` values of the posts fetched for the picked ids, or for every collected id when there is no limit |
| VineTweets.RunAgrees | vine_profiles_from_vinetweets.go:62-88 | as written a run crashes exactly when there are ids and the wrapped `workers*2` makes the channel panic; a count of at most 0 that does not panic writes an empty list; with at least one worker it matches the corrected run |
| VineTweets.RunAsWrittenCrashes | vine_profiles_from_vinetweets.go:62 | for a flag value in int range, as written a run with ids crashes exactly when the count is negative from -2^62 up, twice the count exceeds the buffer limit, or below -2^62 twice the distance from MinInt exceeds it |
| VineTweets.MinIntWorkersWritesNothing | vine_profiles_from_vinetweets.go:62-66 | with -workers=-9223372036854775808 the channel size wraps to 0, nothing panics, no worker starts, and an empty list is written |
| VineTweets.ZeroWorkersLoses | vine_profiles_from_vinetweets.go:62-99 | with -workers=0 and a buffer limit of at least 2 a user whose post was picked is missing as written and present once corrected |
| VineTweets.ExamplePost | vine_profiles_from_vinetweets.go:79-85 | a post {"userIdStr": "u"} yields user "u" |
| FullHarvest.WriteRewritten | vine_full_harvest.go:334-336 | saving a rewritten document adds no file with a legacy prefix |
| FullHarvest.Seed | vine_full_harvest.go:199-252 | each slug's post is requested once; its owner, if any, is recorded; a post without an owner writes nothing; a new file is a post file under the owner; no file is replaced |
| FullHarvest.SeedAll | vine_full_harvest.go:257-261 | seeding many slugs keeps every existing file and claims no media |
| FullHarvest.SeedAllSpec | vine_full_harvest.go:229-238 | the recorded users are exactly the earlier ones plus the owners the slugs' posts name, never ""; the posts are requested once each, in order |
| FullHarvest.FreshProfileReadsBack | vine_full_harvest.go:274-297 | a profile that fetchJSONMap accepted as a map is saved rewritten and read back by step 2 as a map without error, holding exactly the rewritten profile's fields |
| FullHarvest.LoadProfile | vine_full_harvest.go:274-297 | the profile is requested exactly when its file is missing; a loaded profile is what its file holds |
| FullHarvest.PostFull | vine_full_harvest.go:310-349 | a post is always fetched first, even when its file exists; an existing file is never replaced; every later request is for media |
| FullHarvest.PostFullNewFile | vine_full_harvest.go:319-336 | the only document a post can add is the rewritten post, under its real post id; anything else added is media |
| FullHarvest.PostsFull | vine_full_harvest.go:310-349 | the post loop keeps every existing file and records no user |
| FullHarvest.ProcessUserFull | vine_full_harvest.go:272-352 | harvesting a user replaces no file and adds only clean documents or media |
| FullHarvest.ProcessUserFullProfile | vine_full_harvest.go:275-297 | the profile is fetched exactly when its file is missing; the user is harvested exactly when the saved profile reads back as a map, or a missing one can be fetched and written; then the profile file exists |
| FullHarvest.PostsLogShape | vine_full_harvest.go:310-349 | the post loop makes only post and media requests |
| FullHarvest.PostFullSettles | vine_full_harvest.go:329-332 | after a post is handled, handling it again can change nothing but the log |
| FullHarvest.PostFullOfSettled | vine_full_harvest.go:313-332 | a settled post is fetched again and nothing else happens |
| FullHarvest.PostsFullSettles | vine_full_harvest.go:310-349 | after the loop every listed post is settled |
| FullHarvest.PostsFullOfSettled | vine_full_harvest.go:310-332 | a loop over settled posts only requests each of them again |
| FullHarvest.FullRerun | vine_full_harvest.go:272-352 | harvesting a user again changes no file and claims no media; it only requests every listed post again |
| FastHarvest.SaveFetchedPost | fast_harvest_vine.go:177-192 | a missing post file is saved exactly when writable, holding the rewritten post; media follow; no other file is replaced |
| FastHarvest.PostFast | fast_harvest_vine.go:161-193 | a post whose file `<uid>/<pid>.json` exists is not fetched; a missing one is fetched once and saved, under the requested pid, exactly when it can be fetched and written |
| FastHarvest.PostsFast | fast_harvest_vine.go:161-193 | the post loop keeps every existing file and adds only media or listed posts of this user |
| FastHarvest.PostsFastRequests | fast_harvest_vine.go:161-174 | the loop requests exactly the listed posts whose file was missing, each once |
| FastHarvest.PostsFastSaves | fast_harvest_vine.go:169-182 | a listed post whose file was missing ends saved exactly when it can be fetched and written, holding the rewritten post |
| FastHarvest.ProcessUserFast | fast_harvest_vine.go:131-196 | the profile is always requested; the user is harvested exactly when it can be fetched and written; a failure changes nothing else |
| FastHarvest.ProcessUserFastWrites | fast_harvest_vine.go:133-146 | only the profile may be replaced, and it is overwritten with the rewritten profile even when a file existed |
| FastHarvest.ProcessUserFastRequests | fast_harvest_vine.go:149-174 | after the profile, the run requests exactly the missing posts listed in the rewritten profile |
| FastHarvest.ProcessUserFastSaves | fast_harvest_vine.go:149-182 | each missing listed post is saved exactly when it can be fetched and written |
| FastHarvest.PostFastSettles | fast_harvest_vine.go:162-166 | after a post is handled, handling it again changes no file and claims nothing |
| FastHarvest.PostFastOfSettled | fast_harvest_vine.go:161-174 | a settled post leaves files and claims as they are |
| FastHarvest.PostsFastSettles | fast_harvest_vine.go:161-193 | after the loop every listed post is settled |
| FastHarvest.PostsFastOfSettled | fast_harvest_vine.go:161-166 | a loop over settled posts changes neither files nor claims |
| FastHarvest.FastRerun | fast_harvest_vine.go:131-196 | harvesting a user a second time leaves the output tree and the claimed media as the first run left them |

## Left out

- HTTP. The requests in fetchJSONMap, fetchPost and downloadMedia, their headers, timeouts, status codes and body draining are answers of `Archive.Env`. The rate limiters are timing.
- Concurrency. Worker pools, channels, WaitGroups and mutexes are modelled as sequential processing. This is faithful only for runs in which no two concurrent jobs share a user id or a local media path: then the shared sets only grow and no file is written by two workers at once.
- Duplicate jobs. The fast harvester hands a repeated user id to concurrent workers (its list keeps duplicates, and Finding 1 yields several "" ids). Two such workers can both find a post file missing, fetch the post twice and write the same temporary file at once. The sequential model handles the second job after the first, so it fetches each missing post once.
- Media URLs that share a path. Two distinct URLs with the same path, for example differing only in the query, both pass the per-URL claim. Concurrent downloads can then write one local file at the same time. The model downloads the first and skips the second because the file exists.
- The `*workers*2` job channels of the full harvester's main and fetchUsersFromSlugs, and of the fast harvester's main. Those mains are not modelled. Their channels meet the same limits as the one Pools.DoubledChanPanics describes: a panic for a negative flag, for a doubled value above the buffer limit, and for values that wrap; a zero flag starts no worker. The same defect is modelled for the other two programs; see Findings.
- The buffer limit of `make(chan job, n)`. It depends on the platform and the Go release: the largest allocation (2^48 bytes on 64-bit Linux) less the channel header, divided by the 16-byte job. The model takes it as a parameter, `maxBuffer`, and only assumes it lies below 2^62 where a contract needs that (Pools.PlatformLimit).
- Storage.RunOnceAgrees: a count that passes `make` still starts that many goroutines in the corrected run; running out of memory or threads with a huge pool is not modelled, so the corrected run is stated not to crash whenever the count fits the buffer limit.
- VineTweets.RunAgrees: likewise, starting a huge number of worker goroutines and running out of memory is not modelled; only the panic in `make` is.
- The S3 SDK, its client set-up and its environment variables. Only the paging loop over abstract pages is modelled, together with the key each object is read from and written to.
- Storage.ListTxtObjects: requires that the store eventually answers with a page that ends the listing. As written the loop would ask forever.
- The file system. MkdirAll failures are not modelled. The temporary-file-and-rename write is one atomic update. filepath.Walk/WalkDir order and filepath.Join are a given sequence of entries and a constructor for paths.
- encoding/json. Its encoding, indentation, duplicate keys and unmarshal quirks are left out, except for the partial decode into slices that Finding 1 depends on. A document stands for what the decoder produces.
- VineTweets.IsUserIdKey: folds ASCII letters and the two non-ASCII runes whose fold orbit holds an ASCII letter (long s, Kelvin sign). Other Unicode case folds of struct-tag matching, and their dependence on the Go version, are left out.
- Floating point. JSON numbers are integers, and `%.0f` renders them in plain decimal. Precision loss on ids above 2^53 is not modelled.
- url.Parse and url.PathEscape. They are a parameter (`Env.urlPath`, `escape`).
- bufio.Scanner. Its line-length limits and carriage-return handling are left out; an input is its sequence of lines.
- Main loops, flags, logging and fatal exits. This includes collectVineSlugs's checks that the root exists and is a directory.
- The order of output slices built from Go maps. The slug list, the user list and profiles.json are stated as sets.
- processUser's early return when the profile names no post, and its MkdirAll of the user's post directory. With no posts the loop does nothing, so the model loops over an empty list.

Where this model and the programs' own descriptions differ, the model follows the code:

- The full harvester fetches a post before checking whether its file exists, because the file is named by the fetched `postIdStr`. FullHarvest.FullRerun shows the resulting repeated requests.
- The fast harvester always refetches and overwrites the profile, even when its file exists.
- collectVideoIDs can never return its error: the walk callback turns every error into a skip. CollectVideoIds has no error case.

## Findings

| source | as written | input that shows it | evidently intended | confidence | as-written member | corrected member |
|---|---|---|---|---|---|---|
| fast_harvest_vine.go:103-127 | the object fallback appends to `ids`, which the failed first decode left holding one "" per element | a profile list `[{"userIdStr":"7"}]` loads as `["", "7"]` | the fallback starts from an empty list and loads `["7"]` | not executed | EntityIds.LoadObjectsAsWrittenExample | EntityIds.LoadObjectsFixed |
| vine-harvester/vine_full_harvest.go:291-297 | the job channel is made with the raw `-workers` value before the clamp to at least 1 | `-inputDir s3://b -outDir out -workers -1` panics in make | clamp first, then make the channel; a count above the platform's buffer limit still panics in both | not executed | Storage.RunOnceCrashExample | Storage.RunOnceAgrees |
| vine_profiles_from_vinetweets.go:62-88 | the channel is sized `workers*2`, a product that can wrap, and `workers` consumers are started, with no clamp | `-workers -1` panics in make; `-workers 0` starts no worker and writes an empty profiles.json; so does `-workers -9223372036854775808`, whose double wraps to 0 | at least one worker, so every picked id is fetched | not executed | VineTweets.ZeroWorkersLoses | VineTweets.RunUsers |
