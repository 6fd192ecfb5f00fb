/** The tweets-to-profiles program: it reads a dump of tweets, one per line with the
    tweeted URL as the second field, pulls a Vine video id out of each URL, asks the
    archive for each video's post, and writes the list of the posters' user ids that
    the fast harvester reads back. */
module VineTweets {
  import opened Results
  import opened Seqs
  import opened Text
  import opened Json
  import opened Archive
  import opened SlugScan
  import opened EntityIds
  import opened Pools

  // ---------------------------------------------------------------------------
  // extractVineID

  /** The characters strings.Trim removes around an id: the cut set "/ \t". */
  predicate IsIdCut(c: char) {
    c == '/' || c == ' ' || c == '\t'
  }

  /** Drops a leading "http://" or "https://". */
  function StripScheme(u: string): (r: string)
    ensures |r| <= |u| && r == u[|u| - |r|..]
  {
    if StartsWith(u, "http://") then u[7..]
    else if StartsWith(u, "https://") then u[8..]
    else u
  }

  /** Cuts `s` at its first '?'. */
  function CutQuery(s: string): (r: string)
    ensures '?' !in r
    ensures |r| <= |s| && r == s[..|r|]
    ensures |r| < |s| ==> s[|r|] == '?'
  {
    IndexOfChar(s, '?');
    var q := IndexOf(s, "?");
    if q != -1 then s[..q] else s
  }

  /** Trimming only removes characters from the ends. */
  lemma {:induction false} TrimKeepsOut(s: string, cut: char -> bool, c: char)
    requires c !in s
    ensures c !in TrimBy(s, cut)
  {
    var r := TrimBy(s, cut);
    TrimByCharacterized(s, r, cut);
    var a :| CutAt(s, r, cut, a);
    forall k | 0 <= k < |r| ensures r[k] != c {
      assert r[k] == s[a + k];
    }
  }

  /** extractVineID: nothing unless the URL mentions "vine.co/v/"; otherwise what
      follows the first "/v/" after the scheme, up to any query, trimmed of slashes,
      spaces and tabs. */
  function ExtractVineId(u: string): (r: string)
    ensures !Contains(u, Marker) ==> r == ""
    ensures '?' !in r
    ensures TrimmedBy(r, IsIdCut)
  {
    if !Contains(u, Marker) then "" else IdAfterSlashV(StripScheme(u))
  }

  /** The second half of extractVineID, on the URL without its scheme. */
  function IdAfterSlashV(v: string): (r: string)
    ensures '?' !in r
    ensures TrimmedBy(r, IsIdCut)
  {
    var i := IndexOf(v, "/v/");
    if i == -1 then ""
    else
      var part := CutQuery(v[i + 3..]);
      TrimKeepsOut(part, IsIdCut, '?');
      TrimBy(part, IsIdCut)
  }

  /** The program gives up when no "/v/" follows the scheme, but that cannot happen
      once the URL mentions "vine.co/v/": no "v" is in a scheme, so the marker
      survives the stripping. */
  lemma {:induction false} ExtractFindsSlashV(u: string)
    requires Contains(u, Marker)
    ensures IndexOf(StripScheme(u), "/v/") >= 0
  {
    var i := ContainsWitness(u, Marker);
    assert u[i..i + |Marker|] == Marker;
    var v := StripScheme(u);
    var k := |u| - |v|;
    SchemeHasNoV(u, i);
    assert v[i + 7 - k..i + 10 - k] == u[i + 7..i + 10];
    assert u[i + 7..i + 10] == Marker[7..10] == "/v/";
    OccursContains(v, "/v/", i + 7 - k);
  }

  /** Stripping the scheme never removes a 'v'. */
  lemma SchemeHasNoV(u: string, i: int)
    requires 0 <= i < |u| && u[i] == 'v'
    ensures |u| - |StripScheme(u)| <= i
  {
  }

  lemma {:induction false} TrimAlnum(id: string)
    requires id != [] && forall k :: 0 <= k < |id| ==> IsAlnum(id[k])
    ensures TrimBy(id, IsIdCut) == id
    ensures TrimBy(id + "/", IsIdCut) == id
  {
    assert TrimmedBy(id, IsIdCut) by {
      assert IsAlnum(id[0]) && IsAlnum(id[|id| - 1]);
    }
    TrimOfTrimmed(id, IsIdCut);
    TrimSlash(id);
  }

  /** A trailing slash is trimmed away from a trimmed id. */
  lemma TrimSlash(id: string)
    requires id != [] && TrimmedBy(id, IsIdCut)
    ensures TrimBy(id + "/", IsIdCut) == id
  {
    var s := id + "/";
    TrimLeftAppend(id, "/", IsIdCut);
    assert TrimLeftBy(id, IsIdCut) == id;
    assert s[..|s| - 1] == id;
    assert TrimRightBy(s, IsIdCut) == TrimRightBy(id, IsIdCut);
  }

  lemma {:induction false} StripLink(scheme: string, v: string)
    requires scheme == "" || scheme == "http://" || scheme == "https://"
    requires v != [] && v[0] == 'v'
    ensures StripScheme(scheme + v) == v
  {
    var u := scheme + v;
    assert u[|scheme|..] == v;
    if scheme == "" {
      assert u[0] == 'v';
    } else if scheme == "https://" {
      assert u[4] == 's';
    }
  }

  lemma {:induction false} SlashVOfMarker(rest: string)
    ensures IndexOf(Marker + rest, "/v/") == 7
  {
    var v := Marker + rest;
    assert v[7..10] == "/v/";
    assert OccursAt(v, "/v/", 7);
    OccursContains(v, "/v/", 7);
    forall j | 0 <= j < 7 ensures !OccursAt(v, "/v/", j) {
      assert v[j] == Marker[j];
    }
  }

  lemma {:induction false} IdOfPart(id: string, tail: string)
    requires id != [] && forall k :: 0 <= k < |id| ==> IsAlnum(id[k])
    requires tail == "" || tail == "/" || (tail != "" && tail[0] == '?')
    ensures TrimBy(CutQuery(id + tail), IsIdCut) == id
  {
    TrimAlnum(id);
    assert '?' !in id;
    if tail == "" {
      assert id + tail == id;
      CutQueryNone(id);
    } else if tail == "/" {
      assert '?' !in id + "/";
      CutQueryNone(id + "/");
    } else {
      CutQueryAt(id, tail);
    }
  }

  /** A string without '?' has no query to cut. */
  lemma CutQueryNone(s: string)
    requires '?' !in s
    ensures CutQuery(s) == s
  {
    IndexOfChar(s, '?');
  }

  /** The query starts at the first '?'. */
  lemma CutQueryAt(id: string, tail: string)
    requires '?' !in id && tail != [] && tail[0] == '?'
    ensures CutQuery(id + tail) == id
  {
    assert id + tail == id + ['?'] + tail[1..];
    IndexOfAfter(id, '?', tail[1..]);
    assert (id + tail)[..|id|] == id;
  }

  /** After "vine.co/v/" the id part is what follows the marker. */
  lemma {:induction false} IdAfterMarker(rest: string)
    ensures IdAfterSlashV(Marker + rest) == TrimBy(CutQuery(rest), IsIdCut)
  {
    var v := Marker + rest;
    SlashVOfMarker(rest);
    assert v[10..] == rest;
  }

  /** A link with the marker right after its scheme mentions the marker. */
  lemma {:induction false} LinkHasMarker(scheme: string, rest: string)
    ensures Contains(scheme + (Marker + rest), Marker)
  {
    var u := scheme + (Marker + rest);
    assert u[|scheme|..|scheme| + |Marker|] == Marker;
    OccursContains(u, Marker, |scheme|);
  }

  /** The links the program is written for: with or without a scheme, with a
      trailing slash or a query, the id is the run of letters and digits after
      "vine.co/v/". */
  lemma {:induction false} ExtractOfLink(scheme: string, id: string, tail: string)
    requires scheme == "" || scheme == "http://" || scheme == "https://"
    requires id != [] && forall k :: 0 <= k < |id| ==> IsAlnum(id[k])
    requires tail == "" || tail == "/" || (tail != "" && tail[0] == '?')
    ensures ExtractVineId(scheme + Marker + id + tail) == id
  {
    var v := Marker + (id + tail);
    var u := scheme + v;
    assert u == scheme + Marker + id + tail;
    assert ExtractVineId(u) == IdAfterSlashV(v) by {
      LinkHasMarker(scheme, id + tail);
      StripLink(scheme, v);
    }
    assert IdAfterSlashV(v) == id by {
      IdAfterMarker(id + tail);
      IdOfPart(id, tail);
    }
  }

  // ---------------------------------------------------------------------------
  // collectVideoIDs

  /** One tweet line: trimmed, split into fields; the second field is the tweeted
      URL, and its Vine id, when it has one, is the line's. */
  function LineVideoId(line: string): (r: Option<string>)
    ensures r.Some? ==> r.value != "" && '?' !in r.value && TrimmedBy(r.value, IsIdCut)
  {
    var t := TrimSpace(line);
    if t == "" then None else VideoIdOfFields(Fields(t))
  }

  /** The Vine id of the second of a line's fields, when there are two and it has
      one. */
  function VideoIdOfFields(fields: seq<string>): (r: Option<string>)
    ensures r.Some? ==> |fields| >= 2 && r.value == ExtractVineId(fields[1])
    ensures r.Some? ==> r.value != "" && '?' !in r.value && TrimmedBy(r.value, IsIdCut)
  {
    if |fields| < 2 then None
    else
      var id := ExtractVineId(fields[1]);
      if id == "" then None else Some(id)
  }

  lemma {:induction false} TrimLeftNone(s: string, cut: char -> bool)
    requires s != [] && !cut(s[0])
    ensures TrimLeftBy(s, cut) == s
  {
  }

  /** A word that a space or the end follows is the first field. */
  lemma {:induction false} FieldsOfWord(a: string, rest: string)
    requires a != [] && NoSpace(a)
    requires rest == [] || IsSpace(rest[0])
    ensures Fields(a + rest) == [a] + Fields(rest)
  {
    var s := a + rest;
    TrimLeftNone(s, IsSpace);
    assert WordLength(s) == |a| by {
      WordLengthOf(a, rest);
    }
    assert s[..|a|] == a && s[|a|..] == rest;
  }

  lemma {:induction false} WordLengthOf(a: string, rest: string)
    requires NoSpace(a)
    requires rest == [] || IsSpace(rest[0])
    ensures WordLength(a + rest) == |a|
    decreases |a|
  {
    if a != [] {
      assert (a + rest)[1..] == a[1..] + rest;
      WordLengthOf(a[1..], rest);
    } else {
      assert a + rest == rest;
    }
  }

  /** Every line, whatever its white space: it yields the Vine id of its second
      field, and nothing when it has fewer than two fields or that id is empty. */
  lemma LineVideoIdSpec(line: string)
    ensures LineVideoId(line) ==
              (var f := Fields(line);
               if |f| < 2 || ExtractVineId(f[1]) == "" then None else Some(ExtractVineId(f[1])))
  {
    LineVideoIdOfFields(line);
  }

  /** The white space strings.TrimSpace removes is not seen by strings.Fields. */
  lemma LineVideoIdOfFields(line: string)
    ensures LineVideoId(line) == VideoIdOfFields(Fields(line))
  {
    FieldsOfTrimSpace(line);
    if TrimSpace(line) == "" {
      FieldsOfEmpty();
    }
  }

  /** The fields of a tweet line "<tweet id> <url> ...", laid out with any white
      space before, between and after its words, start with those two words. */
  lemma TweetFields(lead: string, tweet: string, sep: string, url: string, rest: string)
    requires AllSpace(lead) && sep != [] && AllSpace(sep)
    requires tweet != [] && NoSpace(tweet) && url != [] && NoSpace(url)
    requires rest == [] || IsSpace(rest[0])
    ensures var f := Fields(lead + tweet + sep + url + rest);
            |f| >= 2 && f[0] == tweet && f[1] == url
  {
    var tail := sep + (url + rest);
    SecondWord(sep, url, rest);
    StartsWithSpace(sep, url + rest);
    FirstWord(lead, tweet, tail);
    Regroup(lead, tweet, sep, url, rest);
    FirstTwo(tweet, url, Fields(rest));
  }

  /** White space, then a word ending the text or followed by white space. */
  lemma SecondWord(sep: string, url: string, rest: string)
    requires AllSpace(sep)
    requires url != [] && NoSpace(url)
    requires rest == [] || IsSpace(rest[0])
    ensures Fields(sep + (url + rest)) == [url] + Fields(rest)
  {
    FieldsOfWord(url, rest);
    FieldsAfterSpaces(sep, url + rest);
  }

  lemma StartsWithSpace(sep: string, s: string)
    requires sep != [] && AllSpace(sep)
    ensures sep + s != [] && IsSpace((sep + s)[0])
  {
    assert (sep + s)[0] == sep[0];
  }

  lemma FirstTwo(a: string, b: string, rest: seq<string>)
    ensures var f := [a] + ([b] + rest); |f| >= 2 && f[0] == a && f[1] == b
  {
  }

  /** White space, then a word followed by white space. */
  lemma FirstWord(lead: string, tweet: string, tail: string)
    requires AllSpace(lead)
    requires tweet != [] && NoSpace(tweet)
    requires tail != [] && IsSpace(tail[0])
    ensures Fields(lead + (tweet + tail)) == [tweet] + Fields(tail)
  {
    FieldsOfWord(tweet, tail);
    FieldsAfterSpaces(lead, tweet + tail);
  }

  lemma Regroup(a: string, b: string, c: string, d: string, e: string)
    ensures a + b + c + d + e == a + (b + (c + (d + e)))
  {
  }

  /** A tweet line "<tweet id> <url> ..." yields the Vine id of its URL, whatever
      white space surrounds and separates its words. */
  lemma LineOfTweet(lead: string, tweet: string, sep: string, url: string, rest: string)
    requires AllSpace(lead) && sep != [] && AllSpace(sep)
    requires tweet != [] && NoSpace(tweet) && url != [] && NoSpace(url)
    requires rest == [] || IsSpace(rest[0])
    ensures LineVideoId(lead + tweet + sep + url + rest) ==
              (if ExtractVineId(url) == "" then None else Some(ExtractVineId(url)))
  {
    TweetFields(lead, tweet, sep, url, rest);
    LineVideoIdOfFields(lead + tweet + sep + url + rest);
  }

  /** A line of fewer than two words yields no id. */
  lemma ShortLine(line: string)
    requires |Fields(line)| < 2
    ensures LineVideoId(line) == None
  {
    LineVideoIdOfFields(line);
  }

  /** A file the walk meets: an error (skipped), a directory, or a file with its
      name and contents. */
  datatype TweetEntry = WalkError | Directory | File(name: string, input: Input)

  /** Only regular files named "*.txt" (case-sensitive here) are read. */
  predicate IsTweetFile(e: TweetEntry) {
    e.File? && EndsWith(e.name, ".txt")
  }

  /** A line of `input` has the id `id`. */
  ghost predicate HasId(input: Input, id: string) {
    input.Lines? && FoundBy(input.lines, LineVideoId, id)
  }

  /** collectVideoIDs: the ids of every line of every readable "*.txt" file the walk
      reaches. Walk errors, unreadable files and other files are skipped, so the
      collection itself never fails. */
  function CollectVideoIds(ids: set<string>, entries: seq<TweetEntry>): (r: set<string>)
    ensures ids <= r
    decreases |entries|
  {
    if entries == [] then ids
    else
      var e := entries[0];
      var next := if IsTweetFile(e) && e.input.Lines? then AddFound(ids, e.input.lines, LineVideoId) else ids;
      CollectVideoIds(next, entries[1..])
  }

  /** Some readable "*.txt" entry among `entries` has a line with the id `s`. */
  ghost predicate InSomeFile(entries: seq<TweetEntry>, s: string) {
    exists j :: 0 <= j < |entries| && IsTweetFile(entries[j]) && HasId(entries[j].input, s)
  }

  lemma InSomeFileCons(entries: seq<TweetEntry>, s: string)
    requires entries != []
    ensures InSomeFile(entries, s) <==>
              (IsTweetFile(entries[0]) && HasId(entries[0].input, s)) || InSomeFile(entries[1..], s)
  {
    if InSomeFile(entries, s) {
      InSomeFileSplit(entries, s);
    }
    if InSomeFile(entries[1..], s) {
      InSomeFileFromTail(entries, s);
    }
    if IsTweetFile(entries[0]) && HasId(entries[0].input, s) {
      assert 0 < |entries| && IsTweetFile(entries[0]) && HasId(entries[0].input, s);
    }
  }

  lemma InSomeFileSplit(entries: seq<TweetEntry>, s: string)
    requires entries != [] && InSomeFile(entries, s)
    ensures (IsTweetFile(entries[0]) && HasId(entries[0].input, s)) || InSomeFile(entries[1..], s)
  {
    var j :| 0 <= j < |entries| && IsTweetFile(entries[j]) && HasId(entries[j].input, s);
    if j > 0 {
      assert entries[1..][j - 1] == entries[j];
    }
  }

  lemma InSomeFileFromTail(entries: seq<TweetEntry>, s: string)
    requires entries != [] && InSomeFile(entries[1..], s)
    ensures InSomeFile(entries, s)
  {
    var j :| 0 <= j < |entries[1..]| && IsTweetFile(entries[1..][j]) && HasId(entries[1..][j].input, s);
    assert entries[1..][j] == entries[j + 1];
  }

  /** An id is collected exactly when some line of some readable "*.txt" file has
      it. */
  lemma {:induction false} CollectVideoIdsSpec(ids: set<string>, entries: seq<TweetEntry>)
    ensures forall s :: s in CollectVideoIds(ids, entries) <==> s in ids || InSomeFile(entries, s)
    decreases |entries|
  {
    if entries != [] {
      var e := entries[0];
      var next := if IsTweetFile(e) && e.input.Lines? then AddFound(ids, e.input.lines, LineVideoId) else ids;
      CollectVideoIdsSpec(next, entries[1..]);
      assert forall s :: s in next <==> s in ids || (IsTweetFile(e) && HasId(e.input, s)) by {
        if IsTweetFile(e) && e.input.Lines? {
          AddFoundSpec(ids, e.input.lines, LineVideoId);
        }
      }
      forall s ensures InSomeFile(entries, s) <==> (IsTweetFile(e) && HasId(e.input, s)) || InSomeFile(entries[1..], s) {
        InSomeFileCons(entries, s);
      }
    }
  }

  /** Every collected id is non-empty and free of '?'. */
  lemma CollectedIdsClean(entries: seq<TweetEntry>, s: string)
    requires s in CollectVideoIds({}, entries)
    ensures s != "" && '?' !in s
  {
    CollectVideoIdsSpec({}, entries);
    assert InSomeFile(entries, s);
    var j :| 0 <= j < |entries| && IsTweetFile(entries[j]) && HasId(entries[j].input, s);
    var n :| 0 <= n < |entries[j].input.lines| && LineVideoId(entries[j].input.lines[n]) == Some(s);
  }

  // ---------------------------------------------------------------------------
  // The limit and the post URL

  /** The -limit flag: a positive limit smaller than the number of ids keeps that
      many from the front; otherwise all are kept. */
  function Limit(ids: seq<string>, limit: int): (r: seq<string>)
    ensures r <= ids
    ensures limit <= 0 ==> r == ids
    ensures limit > 0 ==> |r| == if |ids| < limit then |ids| else limit
  {
    if limit > 0 && |ids| > limit then ids[..limit] else ids
  }

  /** The post URL: the base without trailing slashes, "/", the escaped id, ".json".
      `escape` is url.PathEscape. */
  function PostUrl(base: string, id: string, escape: string -> string): (r: string)
    ensures StartsWith(r, TrimRightBy(base, IsSlash) + "/")
    ensures EndsWith(r, ".json")
  {
    var p := TrimRightBy(base, IsSlash) + "/";
    var r := p + escape(id) + ".json";
    assert r[..|p|] == p;
    assert r[|r| - 5..] == ".json";
    r
  }

  /** Between the base's "/" and ".json" a post URL holds exactly the escaped id. */
  lemma PostUrlEscapedId(base: string, id: string, escape: string -> string)
    ensures var p := TrimRightBy(base, IsSlash) + "/";
            var r := PostUrl(base, id, escape);
            |p| + 5 <= |r| && r[|p|..|r| - 5] == escape(id)
  {
    var p := TrimRightBy(base, IsSlash) + "/";
    var r := PostUrl(base, id, escape);
    assert r == p + escape(id) + ".json";
  }

  /** Two ids fetched from the same base share a URL only when they escape alike,
      and then they do. */
  lemma PostUrlDeterminesId(base: string, i: string, j: string, escape: string -> string)
    ensures PostUrl(base, i, escape) == PostUrl(base, j, escape) <==> escape(i) == escape(j)
  {
    PostUrlEscapedId(base, i, escape);
    PostUrlEscapedId(base, j, escape);
  }

  /** url.PathEscape is undone by url.PathUnescape, so distinct ids are fetched from
      distinct URLs. */
  lemma PostUrlsDistinct(base: string, i: string, j: string, escape: string -> string, unescape: string -> string)
    requires forall x :: unescape(escape(x)) == x
    requires i != j
    ensures PostUrl(base, i, escape) != PostUrl(base, j, escape)
  {
    PostUrlDeterminesId(base, i, j, escape);
    assert unescape(escape(i)) == i && unescape(escape(j)) == j;
  }

  /** A base URL written with trailing slashes gives the same post URLs. */
  lemma PostUrlSlashes(base: string, id: string, escape: string -> string)
    ensures PostUrl(base + "/", id, escape) == PostUrl(base, id, escape)
  {
    var s := base + "/";
    assert s[..|s| - 1] == base;
  }

  // ---------------------------------------------------------------------------
  // fetchPost

  /** Go's case folding of a JSON key for matching a struct field: ASCII letters
      to upper case, and the two non-ASCII runes whose fold orbit holds an ASCII
      letter (U+017F long s, the Kelvin sign U+212A). The dotted capital I U+0130 and
      the dotless i U+0131 have no fold orbit and stay as they are. */
  function FoldRune(c: char): char {
    if 'a' <= c <= 'z' then (c as int - 32) as char
    else if c == '\U{017F}' then 'S'
    else if c == '\U{212A}' then 'K'
    else c
  }

  const UserIdKey := "userIdStr"

  /** The key fills the post's `userIdStr` field. */
  predicate IsUserIdKey(k: string) {
    |k| == |UserIdKey| && forall i :: 0 <= i < |k| ==> FoldRune(k[i]) == FoldRune(UserIdKey[i])
  }

  lemma UserIdKeyExamples()
    ensures IsUserIdKey("userIdStr") && IsUserIdKey("USERIDSTR") && IsUserIdKey("userid\U{017F}tr")
    ensures !IsUserIdKey("userId") && !IsUserIdKey("userIdStrs")
    ensures !IsUserIdKey("user\U{0130}dStr") && !IsUserIdKey("user\U{0131}dStr")
  {
    assert FoldRune("user\U{0130}dStr"[4]) != FoldRune(UserIdKey[4]);
    assert FoldRune("user\U{0131}dStr"[4]) != FoldRune(UserIdKey[4]);
    assert FoldRune('u') == 'U';
    assert FoldRune('s') == 'S';
    assert FoldRune('d') == 'D';
  }

  datatype DecodeError = WrongType

  /** A matching key ahead of nothing but non-matching or null entries. */
  ghost predicate LastString(fs: seq<Field>, i: int, s: string) {
    0 <= i < |fs| && IsUserIdKey(fs[i].key) && fs[i].val == Str(s) &&
    forall j :: i < j < |fs| && IsUserIdKey(fs[j].key) ==> fs[j].val.Null?
  }

  /** Decoding the members of a post object into the struct, starting from the
      value `cur`: each matching string replaces it, a matching null leaves it, and
      any other matching value is a type error. */
  function ScanUserId(fs: seq<Field>, cur: string): (r: Result<string, DecodeError>)
    ensures r.Err? <==> exists i :: 0 <= i < |fs| && IsUserIdKey(fs[i].key) && !fs[i].val.Str? && !fs[i].val.Null?
    ensures r.Ok? ==>
              (r.value == cur && forall i :: 0 <= i < |fs| && IsUserIdKey(fs[i].key) ==> fs[i].val.Null?) ||
              exists i :: LastString(fs, i, r.value)
    decreases |fs|
  {
    if fs == [] then Ok(cur)
    else
      var f := fs[0];
      var rest := fs[1..];
      assert forall i :: 1 <= i < |fs| ==> fs[i] == rest[i - 1];
      var r := if !IsUserIdKey(f.key) then ScanUserId(rest, cur)
               else match f.val
                 case Str(s) => ScanUserId(rest, s)
                 case Null => ScanUserId(rest, cur)
                 case _ => Err(WrongType);
      assert r.Ok? && (exists i :: LastString(rest, i, r.value)) ==> exists i :: LastString(fs, i, r.value) by {
        if r.Ok? && exists i :: LastString(rest, i, r.value) {
          var i :| LastString(rest, i, r.value);
          assert LastString(fs, i + 1, r.value);
        }
      }
      assert r.Ok? && IsUserIdKey(f.key) && f.val.Str? && r.value == f.val.s &&
             (forall i :: 0 <= i < |rest| && IsUserIdKey(rest[i].key) ==> rest[i].val.Null?) ==>
             LastString(fs, 0, r.value);
      r
  }

  /** json.Decoder.Decode into the Post struct: null leaves the field empty, an
      object fills it from its members, and anything else is a type error. */
  function DecodePost(doc: Value): (r: Result<string, DecodeError>)
    ensures r.Err? ==> !doc.Null?
    ensures !doc.Null? && !doc.Obj? ==> r.Err?
  {
    match doc
    case Null => Ok("")
    case Obj(fs) => ScanUserId(fs, "")
    case _ => Err(WrongType)
  }

  /** A post decodes to the last string its matching keys hold; the user id is ""
      when they hold none. */
  lemma DecodePostObject(fs: seq<Field>)
    requires forall i :: 0 <= i < |fs| && IsUserIdKey(fs[i].key) ==> fs[i].val.Str? || fs[i].val.Null?
    ensures DecodePost(Obj(fs)).Ok?
    ensures DecodePost(Obj(fs)).value != "" ==> exists i :: LastString(fs, i, DecodePost(Obj(fs)).value)
  {
  }

  /** The user a post answer names: the fetch and the decoding succeed and the id
      is not empty. */
  function UserOf(answer: Result<Value, FetchError>): (r: Option<string>)
    ensures r.Some? ==> r.value != "" && answer.Ok? && DecodePost(answer.value) == Ok(r.value)
    ensures answer.Ok? && DecodePost(answer.value).Ok? && DecodePost(answer.value).value != "" ==> r.Some?
  {
    match answer
    case Err(_) => None
    case Ok(doc) =>
      match DecodePost(doc)
      case Err(_) => None
      case Ok(u) => if u == "" then None else Some(u)
  }

  /** The user a fetched post object names, in terms of its members: the decode
      meets no matching key of another type than string or null, and the last
      string a matching key holds is `u`, which is not empty. */
  lemma UserOfFields(fs: seq<Field>, u: string)
    ensures UserOf(Ok(Obj(fs))) == Some(u) <==>
              && u != ""
              && (forall i :: 0 <= i < |fs| && IsUserIdKey(fs[i].key) ==> fs[i].val.Str? || fs[i].val.Null?)
              && exists i :: LastString(fs, i, u)
  {
    var r := ScanUserId(fs, "");
    if u != "" && (forall i :: 0 <= i < |fs| && IsUserIdKey(fs[i].key) ==> fs[i].val.Str? || fs[i].val.Null?) &&
       exists i :: LastString(fs, i, u) {
      var i :| LastString(fs, i, u);
      assert r.Ok?;
      var j :| LastString(fs, j, r.value);
      LastStringUnique(fs, i, j, u, r.value);
    }
  }

  /** Only one member can be the last matching one holding a string. */
  lemma LastStringUnique(fs: seq<Field>, i: int, j: int, s: string, t: string)
    requires LastString(fs, i, s) && LastString(fs, j, t)
    ensures i == j && s == t
  {
  }

  /** What one worker does with a job: the user of the post of the id, if any. */
  function PostUser(fetch: string -> Result<Value, FetchError>): string -> Option<string> {
    id => UserOf(fetch(id))
  }

  /** `u` is the user of the post of some id in `ids`. */
  ghost predicate PostedBy(ids: seq<string>, fetch: string -> Result<Value, FetchError>, u: string) {
    FoundBy(ids, PostUser(fetch), u)
  }

  // ---------------------------------------------------------------------------
  // writeUserIDsJSON and the whole run

  /** profiles.json: a JSON array of the user ids, as strings. */
  function UserListDoc(list: seq<string>): (d: Value)
    ensures d.Arr? && |d.items| == |list|
    ensures forall i :: 0 <= i < |list| ==> d.items[i] == Str(list[i])
    ensures DecodeStrings(d) == Partial(list, true)
    ensures DecodeObjects(d).ok <==> list == []
  {
    var d := Arr(seq(|list|, i requires 0 <= i < |list| => Str(list[i])));
    DecodeStringsExact(d, list);
    assert list != [] ==> !d.items[0].Obj? && !d.items[0].Null?;
    d
  }

  /** The fast harvester, reading the file back, gets exactly the list written, in
      both the written and the corrected reading of loadUserIDs. */
  lemma UserListRoundTrip(list: seq<string>)
    ensures LoadUserIds(Parsed(UserListDoc(list))) == Ok(list)
    ensures LoadUserIdsAsWritten(Parsed(UserListDoc(list))) == Ok(list)
  {
    var d := UserListDoc(list);
    if |list| > 0 {
      LoadStringList(d.items);
      assert LoadUserIds(Parsed(d)).value == list;
    } else {
      assert DecodeStrings(d).items == [];
    }
  }

  /** How a run ends: nothing to do, a crash, a failed write, or profiles.json
      written with the user set. */
  datatype TweetsRun = NoVideoIds | Crashed | WriteFailed | Wrote(users: set<string>)

  /** The program as written. `ids` is the order in which the id set is listed, the
      ids are fed to the workers in that order, `written` says whether creating
      profiles.json succeeds, and `maxBuffer` is the largest job buffer the
      platform allows. The job channel is sized `workers*2`, with int wrap-around,
      and only `workers` consumers are started: a channel size out of range
      crashes, and a count of zero or below starts none, so no post is fetched and
      the list written is empty. */
  function RunAsWritten(entries: seq<TweetEntry>, ids: seq<string>, limit: int, workers: int, maxBuffer: nat,
                        fetch: string -> Result<Value, FetchError>, written: bool): TweetsRun
    requires Distinct(ids) && Elems(ids) == CollectVideoIds({}, entries)
  {
    if ids == [] then NoVideoIds
    else
      var picked := Limit(ids, limit);
      if MakeChanPanics(Wrap(workers * 2), maxBuffer) then Crashed
      else
        var users := if workers <= 0 then {} else AddFound({}, picked, PostUser(fetch));
        if !written then WriteFailed else Wrote(users)
  }

  /** The program with the worker count clamped to at least one before the channel
      is made: every picked id is fetched, and only a count whose doubled buffer
      the platform cannot allocate still crashes. */
  function Run(entries: seq<TweetEntry>, ids: seq<string>, limit: int, workers: int, maxBuffer: nat,
               fetch: string -> Result<Value, FetchError>, written: bool): (r: TweetsRun)
    requires Distinct(ids) && Elems(ids) == CollectVideoIds({}, entries)
    ensures PlatformLimit(maxBuffer) && EffectiveWorkers(workers) * 2 <= maxBuffer ==> r != Crashed
    ensures r == NoVideoIds <==> CollectVideoIds({}, entries) == {}
  {
    if ids == [] then NoVideoIds
    else
      var picked := Limit(ids, limit);
      assert ids[0] in Elems(ids);
      var size := EffectiveWorkers(workers) * 2;
      assert PlatformLimit(maxBuffer) && size <= maxBuffer ==> Wrap(size) == size by {
        if PlatformLimit(maxBuffer) && size <= maxBuffer {
          WrapInRange(size);
        }
      }
      if MakeChanPanics(Wrap(size), maxBuffer) then Crashed
      else
        var users := AddFound({}, picked, PostUser(fetch));
        if !written then WriteFailed else Wrote(users)
  }

  /** The corrected run writes exactly the users of the posts of the picked ids;
      without a limit, those of every collected id. */
  lemma RunUsers(entries: seq<TweetEntry>, ids: seq<string>, limit: int, workers: int, maxBuffer: nat,
                 fetch: string -> Result<Value, FetchError>, u: string)
    requires Distinct(ids) && Elems(ids) == CollectVideoIds({}, entries)
    requires Run(entries, ids, limit, workers, maxBuffer, fetch, true).Wrote?
    ensures u in Run(entries, ids, limit, workers, maxBuffer, fetch, true).users <==> PostedBy(Limit(ids, limit), fetch, u)
    ensures limit <= 0 ==>
              (u in Run(entries, ids, limit, workers, maxBuffer, fetch, true).users <==>
               exists id :: id in CollectVideoIds({}, entries) && UserOf(fetch(id)) == Some(u))
  {
    AddFoundSpec({}, Limit(ids, limit), PostUser(fetch));
    if limit <= 0 {
      if PostedBy(ids, fetch, u) {
        var j :| 0 <= j < |ids| && UserOf(fetch(ids[j])) == Some(u);
        assert ids[j] in Elems(ids);
      }
      if exists id :: id in CollectVideoIds({}, entries) && UserOf(fetch(id)) == Some(u) {
        var id :| id in CollectVideoIds({}, entries) && UserOf(fetch(id)) == Some(u);
        assert id in Elems(ids);
        var j :| 0 <= j < |ids| && ids[j] == id;
      }
    }
  }

  /** The two agree whenever at least one worker is asked for. Otherwise the
      written program crashes when the doubled count is out of range for a
      channel, and else starts no worker and writes an empty list. */
  lemma RunAgrees(entries: seq<TweetEntry>, ids: seq<string>, limit: int, workers: int, maxBuffer: nat,
                  fetch: string -> Result<Value, FetchError>, written: bool)
    requires Distinct(ids) && Elems(ids) == CollectVideoIds({}, entries)
    ensures workers >= 1 ==>
              RunAsWritten(entries, ids, limit, workers, maxBuffer, fetch, written) ==
              Run(entries, ids, limit, workers, maxBuffer, fetch, written)
    ensures RunAsWritten(entries, ids, limit, workers, maxBuffer, fetch, written) == Crashed <==>
              ids != [] && MakeChanPanics(Wrap(workers * 2), maxBuffer)
    ensures workers <= 0 && written && ids != [] && !MakeChanPanics(Wrap(workers * 2), maxBuffer) ==>
              RunAsWritten(entries, ids, limit, workers, maxBuffer, fetch, written) == Wrote({})
  {
  }

  /** When the written program crashes, in terms of the flag value: a negative count
      from -2^62 up, a count whose double exceeds the buffer limit, and a count
      below -2^62 whose wrapped double 2 * (workers - MinInt) exceeds it. */
  lemma RunAsWrittenCrashes(entries: seq<TweetEntry>, ids: seq<string>, limit: int, workers: int, maxBuffer: nat,
                            fetch: string -> Result<Value, FetchError>, written: bool)
    requires Distinct(ids) && Elems(ids) == CollectVideoIds({}, entries)
    requires IsInt(workers) && PlatformLimit(maxBuffer)
    ensures RunAsWritten(entries, ids, limit, workers, maxBuffer, fetch, written) == Crashed <==>
              ids != [] &&
              if workers < -0x4000_0000_0000_0000 then (workers - MinInt) * 2 > maxBuffer
              else workers < 0 || workers * 2 > maxBuffer
  {
    DoubledChanPanics(workers, maxBuffer);
  }

  /** -workers=-9223372036854775808 does not crash: its double wraps to 0, the
      channel is unbuffered, no worker starts and an empty list is written. */
  lemma MinIntWorkersWritesNothing(entries: seq<TweetEntry>, ids: seq<string>, limit: int, maxBuffer: nat,
                                   fetch: string -> Result<Value, FetchError>)
    requires Distinct(ids) && Elems(ids) == CollectVideoIds({}, entries)
    requires ids != []
    ensures RunAsWritten(entries, ids, limit, MinInt, maxBuffer, fetch, true) == Wrote({})
  {
    DoubleMinInt();
  }

  /** With -workers=0 any id whose post names a user shows it: as written the list
      is empty, with the clamp it holds that user. */
  lemma ZeroWorkersLoses(entries: seq<TweetEntry>, ids: seq<string>, limit: int, maxBuffer: nat,
                         fetch: string -> Result<Value, FetchError>, id: string)
    requires Distinct(ids) && Elems(ids) == CollectVideoIds({}, entries)
    requires maxBuffer >= 2
    requires id in Limit(ids, limit) && UserOf(fetch(id)).Some?
    ensures RunAsWritten(entries, ids, limit, 0, maxBuffer, fetch, true) == Wrote({})
    ensures Run(entries, ids, limit, 0, maxBuffer, fetch, true).Wrote?
    ensures UserOf(fetch(id)).value in Run(entries, ids, limit, 0, maxBuffer, fetch, true).users
  {
    AddFoundSpec({}, Limit(ids, limit), PostUser(fetch));
    var n :| 0 <= n < |Limit(ids, limit)| && Limit(ids, limit)[n] == id;
    assert PostUser(fetch)(Limit(ids, limit)[n]) == UserOf(fetch(id));
    WrapInRange(0);
    WrapInRange(2);
  }

  /** A post naming user "u" is one such post. */
  lemma {:induction false} ExamplePost(fetch: string -> Result<Value, FetchError>)
    requires fetch("a") == Ok(Obj([Field("userIdStr", Str("u"))]))
    ensures UserOf(fetch("a")) == Some("u")
  {
    var post := [Field("userIdStr", Str("u"))];
    assert IsUserIdKey("userIdStr") by {
      UserIdKeyExamples();
    }
    assert ScanUserId(post, "") == ScanUserId([], "u");
  }
}
