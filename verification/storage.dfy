/** The slug scanner service (vine-harvester): where it reads and writes, how it
    lists its inputs, the slug file it produces, and the checks one run makes. */
module Storage {
  import opened Results
  import opened Seqs
  import opened Text
  import opened SlugScan
  import opened Pools

  // ---------------------------------------------------------------------------
  // parsePath

  const Scheme := "s3://"

  /** An input or output location: a bucket and key prefix, or a local path. */
  datatype Location = Location(bucket: string, prefix: string, local: string, s3: bool)

  predicate NoSlash(s: string) {
    forall i :: 0 <= i < |s| ==> s[i] != '/'
  }

  /** A key prefix that is empty or names a "directory". */
  predicate IsPrefix(q: string) {
    q == "" || EndsWith(q, "/")
  }

  /** parsePath: "s3://" introduces a bucket, up to the first "/", and a prefix, the
      rest, to which a "/" is added unless it is empty or ends in one. Anything else
      is a local path. */
  function ParsePath(p: string): (r: Location)
    ensures r.s3 <==> StartsWith(p, Scheme)
    ensures !r.s3 ==> r == Location("", "", p, false)
    ensures r.s3 ==> r.local == "" && NoSlash(r.bucket) && IsPrefix(r.prefix)
  {
    if StartsWith(p, Scheme) then
      var rest := p[|Scheme|..];
      var i := IndexOf(rest, "/");
      IndexOfChar(rest, '/');
      var bucket := if i < 0 then rest else rest[..i];
      var raw := if i < 0 then "" else rest[i + 1..];
      var prefix := if raw != "" && !EndsWith(raw, "/") then raw + "/" else raw;
      assert prefix != "" ==> prefix[|prefix| - 1] == '/';
      Location(bucket, prefix, "", true)
    else
      Location("", "", p, false)
  }

  /** A bucket and a prefix written out as "s3://bucket/prefix" parse back to
      themselves. */
  lemma ParseRoundTrip(b: string, q: string)
    requires NoSlash(b) && IsPrefix(q)
    ensures ParsePath(Scheme + b + "/" + q) == Location(b, q, "", true)
  {
    var p := Scheme + b + "/" + q;
    assert StartsWith(p, Scheme);
    assert p[|Scheme|..] == b + "/" + q;
    IndexOfAfter(b, '/', q);
    assert (b + "/" + q)[..|b|] == b;
    assert (b + "/" + q)[|b| + 1..] == q;
  }

  /** A bare bucket, with or without the slash, has an empty prefix. */
  lemma ParseBareBucket(b: string)
    requires NoSlash(b)
    ensures ParsePath(Scheme + b) == Location(b, "", "", true)
    ensures ParsePath(Scheme + b + "/") == Location(b, "", "", true)
  {
    var p := Scheme + b;
    assert StartsWith(p, Scheme);
    assert p[|Scheme|..] == b;
    NoSlashNotContained(b);
    ParseRoundTrip(b, "");
    assert Scheme + b + "/" + "" == Scheme + b + "/";
  }

  lemma NoSlashNotContained(b: string)
    requires NoSlash(b)
    ensures IndexOf(b, "/") == -1
  {
    IndexOfChar(b, '/');
  }

  /** A prefix written without its trailing slash gets one. */
  lemma ParseAddsSlash(b: string, q: string)
    requires NoSlash(b) && q != "" && !EndsWith(q, "/")
    ensures ParsePath(Scheme + b + "/" + q) == Location(b, q + "/", "", true)
  {
    var p := Scheme + b + "/" + q;
    assert StartsWith(p, Scheme);
    assert p[|Scheme|..] == b + "/" + q;
    IndexOfAfter(b, '/', q);
    assert (b + "/" + q)[..|b|] == b;
    assert (b + "/" + q)[|b| + 1..] == q;
  }

  /** The "s3://bucket/prefix" form of a bucket location. */
  function Render(l: Location): string {
    Scheme + l.bucket + "/" + l.prefix
  }

  /** Parsing is a projection: writing a parsed bucket location out and parsing it
      again gives the same location. */
  lemma ParseRender(p: string)
    requires ParsePath(p).s3
    ensures ParsePath(Render(ParsePath(p))) == ParsePath(p)
  {
    ParseRoundTrip(ParsePath(p).bucket, ParsePath(p).prefix);
  }

  // ---------------------------------------------------------------------------
  // Listing the inputs

  /** A key or file name whose lower-case form ends in ".txt". */
  predicate IsTxtName(k: string) {
    EndsWith(ToLower(k), ".txt")
  }

  /** One page of ListObjectsV2: its keys, IsTruncated, NextContinuationToken. */
  datatype Page = Page(keys: seq<string>, truncated: bool, next: Option<string>)

  datatype ListError = ListFailed

  /** The listing asks for another page only after a truncated page that names the
      token to continue from. */
  predicate Continues(p: Page) {
    p.truncated && p.next.Some?
  }

  /** The page answer ends the listing: an error, or a page that does not continue. */
  predicate Stops(a: Result<Page, ListError>) {
    a.Err? || !Continues(a.value)
  }

  /** Reference definition of the listing from the `i`th answer on: the ".txt" keys of
      each page in order, up to the first answer that stops it; an error discards
      everything. */
  function TxtListingFrom(pages: seq<Result<Page, ListError>>, i: nat): Result<seq<string>, ListError>
    decreases |pages| - i
  {
    if i >= |pages| then Ok([])
    else
      match pages[i]
      case Err(e) => Err(e)
      case Ok(p) =>
        if !Continues(p) then Ok(Filter(p.keys, IsTxtName))
        else
          match TxtListingFrom(pages, i + 1)
          case Err(e) => Err(e)
          case Ok(rest) => Ok(Filter(p.keys, IsTxtName) + rest)
  }

  /** The listing that succeeds holds exactly the ".txt" keys of the pages it read. */
  lemma {:induction false} TxtListingMembers(pages: seq<Result<Page, ListError>>, i: nat, k: string)
    requires TxtListingFrom(pages, i).Ok?
    ensures k in TxtListingFrom(pages, i).value ==>
              IsTxtName(k) && exists j :: i <= j < |pages| && pages[j].Ok? && k in pages[j].value.keys
    ensures (exists j :: i <= j < |pages| && pages[j].Ok? && k in pages[j].value.keys && IsTxtName(k) &&
               forall m :: i <= m < j ==> pages[m].Ok? && Continues(pages[m].value)) ==>
              k in TxtListingFrom(pages, i).value
    decreases |pages| - i
  {
    if i < |pages| {
      var p := pages[i].value;
      if Continues(p) {
        TxtListingMembers(pages, i + 1, k);
        if exists j :: i <= j < |pages| && pages[j].Ok? && k in pages[j].value.keys && IsTxtName(k) &&
                       forall m :: i <= m < j ==> pages[m].Ok? && Continues(pages[m].value) {
          var j :| i <= j < |pages| && pages[j].Ok? && k in pages[j].value.keys && IsTxtName(k) &&
                   forall m :: i <= m < j ==> pages[m].Ok? && Continues(pages[m].value);
          if j > i {
            assert forall m :: i + 1 <= m < j ==> pages[m].Ok? && Continues(pages[m].value);
          }
        }
      } else {
        if exists j :: i <= j < |pages| && pages[j].Ok? && k in pages[j].value.keys && IsTxtName(k) &&
                       forall m :: i <= m < j ==> pages[m].Ok? && Continues(pages[m].value) {
          var j :| i <= j < |pages| && pages[j].Ok? && k in pages[j].value.keys && IsTxtName(k) &&
                   forall m :: i <= m < j ==> pages[m].Ok? && Continues(pages[m].value);
          assert j == i;
        }
      }
    }
  }

  /** The keys listed before, in front of the rest of a listing. */
  function Prepend(acc: seq<string>, r: Result<seq<string>, ListError>): Result<seq<string>, ListError> {
    match r
    case Err(e) => Err(e)
    case Ok(rest) => Ok(acc + rest)
  }

  lemma PrependNothing(r: Result<seq<string>, ListError>)
    ensures Prepend([], r) == r
  {
    if r.Ok? {
      assert [] + r.value == r.value;
    }
  }

  lemma PrependTwice(a: seq<string>, b: seq<string>, r: Result<seq<string>, ListError>)
    ensures Prepend(a, Prepend(b, r)) == Prepend(a + b, r)
  {
    if r.Ok? {
      assert a + (b + r.value) == (a + b) + r.value;
    }
  }

  /** `requests[k + 1]` is the token of page `k`, which asked for more. */
  predicate TokensFollow(pages: seq<Result<Page, ListError>>, requests: seq<Option<string>>) {
    |requests| <= |pages| + 1 &&
    forall k :: 0 <= k < |requests| - 1 ==>
      pages[k].Ok? && Continues(pages[k].value) && requests[k + 1] == pages[k].value.next
  }

  /** listTxtObjects over the answers the store gives, in order. `requests` are the
      continuation tokens sent: none first, then the token of each page that
      continues. The store is assumed to end the listing eventually; the program
      would otherwise ask for pages forever. */
  method ListTxtObjects(pages: seq<Result<Page, ListError>>) returns (r: Result<seq<string>, ListError>, requests: seq<Option<string>>)
    requires exists j :: 0 <= j < |pages| && Stops(pages[j])
    ensures r == TxtListingFrom(pages, 0)
    ensures 1 <= |requests| <= |pages| && requests[0] == None
    ensures TokensFollow(pages, requests)
    ensures Stops(pages[|requests| - 1])
  {
    var acc: seq<string> := [];
    PrependNothing(TxtListingFrom(pages, 0));
    var i := 0;
    requests := [None];
    while true
      invariant 0 <= i < |pages| && |requests| == i + 1 && requests[0] == None
      invariant exists j :: i <= j < |pages| && Stops(pages[j])
      invariant TokensFollow(pages, requests)
      invariant TxtListingFrom(pages, 0) == Prepend(acc, TxtListingFrom(pages, i))
      decreases |pages| - i
    {
      match pages[i]
      case Err(e) =>
        r := Err(e);
        return;
      case Ok(p) =>
        if !Continues(p) {
          r := Ok(acc + Filter(p.keys, IsTxtName));
          return;
        }
        assert !Stops(pages[i]);
        PrependTwice(acc, Filter(p.keys, IsTxtName), TxtListingFrom(pages, i + 1));
        acc := acc + Filter(p.keys, IsTxtName);
        requests := requests + [p.next];
        i := i + 1;
    }
  }

  /** One entry met by filepath.Walk: an error, or a path with its base name and
      whether it is a regular file. */
  datatype WalkEntry = WalkFailed | Visited(path: string, name: string, regular: bool)

  /** The entry is a regular file with a ".txt" name. */
  predicate IsTxtFile(e: WalkEntry) {
    e.Visited? && e.regular && IsTxtName(e.name)
  }

  /** listLocalTxtFiles: the paths of the regular ".txt" files in walk order; any
      walk error aborts the listing. */
  function ListLocalTxtFiles(entries: seq<WalkEntry>): (r: Result<seq<string>, ListError>)
    ensures r.Err? <==> exists i :: 0 <= i < |entries| && entries[i].WalkFailed?
    ensures r.Ok? ==> forall f :: f in r.value <==> exists i :: 0 <= i < |entries| && IsTxtFile(entries[i]) && entries[i].path == f
    decreases |entries|
  {
    if entries == [] then Ok([])
    else
      var rest := ListLocalTxtFiles(entries[1..]);
      assert forall i :: 1 <= i < |entries| ==> entries[i] == entries[1..][i - 1];
      match entries[0]
      case WalkFailed => Err(ListFailed)
      case Visited(path, name, regular) =>
        if rest.Err? then rest
        else if regular && IsTxtName(name) then Ok([path] + rest.value)
        else rest
  }

  // ---------------------------------------------------------------------------
  // writeSlugs

  const SlugsFile := "vine_slugs.txt"

  /** Where the slug file goes: an object key in the output bucket, or a file in the
      output directory. */
  datatype Target = ObjectKey(bucket: string, key: string) | LocalFile(dir: string, name: string)

  function SlugsTarget(out: Location): Target {
    if out.s3 then ObjectKey(out.bucket, out.prefix + SlugsFile) else LocalFile(out.local, SlugsFile)
  }

  /** The slug file lands directly under the output prefix, whether or not the
      prefix was written with its trailing slash, and a local output directory holds
      it under its own name. */
  lemma SlugsTargetOf(b: string, q: string, dir: string)
    requires NoSlash(b) && q != "" && !EndsWith(q, "/")
    requires !StartsWith(dir, Scheme)
    ensures SlugsTarget(ParsePath(Scheme + b + "/" + q)) == ObjectKey(b, q + "/" + SlugsFile)
    ensures SlugsTarget(ParsePath(Scheme + b + "/" + q + "/")) == ObjectKey(b, q + "/" + SlugsFile)
    ensures SlugsTarget(ParsePath(dir)) == LocalFile(dir, SlugsFile)
  {
    ParseAddsSlash(b, q);
    assert EndsWith(q + "/", "/");
    ParseRoundTrip(b, q + "/");
    assert Scheme + b + "/" + (q + "/") == Scheme + b + "/" + q + "/";
    assert (q + "/") + SlugsFile == q + "/" + SlugsFile;
  }

  /** The slug file's text: every slug followed by one newline. */
  function SlugsBlob(list: seq<string>): string {
    if list == [] then "" else list[0] + "\n" + SlugsBlob(list[1..])
  }

  /** A slug followed by a newline splits at that newline. */
  lemma SplitFirst(s: string, rest: string)
    requires '\n' !in s
    ensures SplitOn(s + "\n" + rest, '\n') == [s] + SplitOn(rest, '\n')
  {
    var t := s + "\n" + rest;
    IndexOfAfter(s, '\n', rest);
    assert t[..|s|] == s;
    assert t[|s| + 1..] == rest;
  }

  /** Splitting the slug file at newlines gives back the slugs, then the empty text
      after the last newline. */
  lemma {:induction false} SlugsBlobRoundTrip(list: seq<string>)
    requires forall k :: 0 <= k < |list| ==> '\n' !in list[k]
    ensures SplitOn(SlugsBlob(list), '\n') == list + [""]
    decreases |list|
  {
    if list == [] {
      assert IndexOf("", ['\n']) == -1;
    } else {
      var rest := SlugsBlob(list[1..]);
      assert SplitOn(SlugsBlob(list), '\n') == [list[0]] + SplitOn(rest, '\n') by {
        SplitFirst(list[0], rest);
      }
      assert SplitOn(rest, '\n') == list[1..] + [""] by {
        SlugsBlobRoundTrip(list[1..]);
      }
      assert [list[0]] + (list[1..] + [""]) == list + [""];
    }
  }

  /** No captured slug holds a newline, so the slug file of any listing of the slug
      set reads back as that listing. */
  lemma SlugFileRoundTrip(lines: seq<string>, list: seq<string>)
    requires forall k :: 0 <= k < |list| ==> list[k] in AddLines({}, lines)
    ensures SplitOn(SlugsBlob(list), '\n') == list + [""]
  {
    AddLinesSpec({}, lines);
    forall k | 0 <= k < |list| ensures '\n' !in list[k] {
      var j :| 0 <= j < |lines| && list[k] in Slugs(lines[j]);
      var m :| 0 <= m < |Slugs(lines[j])| && Slugs(lines[j])[m] == list[k];
      assert Matches(lines[j], Spans(lines[j])[m]);
      assert forall c :: IsAlnum(c) ==> c != '\n';
    }
    SlugsBlobRoundTrip(list);
  }

  // ---------------------------------------------------------------------------
  // runOnce

  datatype RunError = MissingArgument | ListingFailed | WriteFailed

  /** The end of one run: an error, a crash, or the slug file written. `pool` is the
      number of workers reading bucket objects (none for a local input). */
  datatype RunResult = Failed(err: RunError) | Crashed | Wrote(target: Target, slugs: set<string>, pool: nat)

  /** runOnce as written. `listing` is what listing the input gave, `read` what each
      listed object or file holds (none when it cannot be read), `written` whether
      saving the slug file succeeds, and `maxBuffer` the largest job buffer the
      platform allows. The job channel is created with the raw worker count before
      the clamp, which makes a negative count crash. */
  function RunOnceAsWritten(inputDir: string, outDir: string, workers: int, maxBuffer: nat,
                            listing: Result<seq<string>, ListError>, read: string -> Input, written: bool): RunResult
  {
    if inputDir == "" || outDir == "" then Failed(MissingArgument)
    else
      var inPath := ParsePath(inputDir);
      match listing
      case Err(_) => Failed(ListingFailed)
      case Ok(names) =>
        if inPath.s3 && MakeChanPanics(workers, maxBuffer) then Crashed
        else
          var slugs := ScanInputs({}, seq(|names|, i requires 0 <= i < |names| => read(names[i])));
          if !written then Failed(WriteFailed)
          else Wrote(SlugsTarget(ParsePath(outDir)), slugs, if inPath.s3 then EffectiveWorkers(workers) else 0)
  }

  /** runOnce with the clamp applied before the channel is made. Only a worker
      count beyond the platform's buffer limit still crashes. */
  function RunOnce(inputDir: string, outDir: string, workers: int, maxBuffer: nat,
                   listing: Result<seq<string>, ListError>, read: string -> Input, written: bool): (r: RunResult)
    ensures r == Crashed ==> ParsePath(inputDir).s3 && listing.Ok? && EffectiveWorkers(workers) > maxBuffer
    ensures maxBuffer >= 1 && workers <= maxBuffer ==> r != Crashed
    ensures inputDir == "" || outDir == "" <==> r == Failed(MissingArgument)
    ensures r.Wrote? && ParsePath(inputDir).s3 ==> r.pool >= 1
    ensures r.Wrote? ==> r.target == SlugsTarget(ParsePath(outDir))
  {
    if inputDir == "" || outDir == "" then Failed(MissingArgument)
    else
      var inPath := ParsePath(inputDir);
      match listing
      case Err(_) => Failed(ListingFailed)
      case Ok(names) =>
        if inPath.s3 && MakeChanPanics(EffectiveWorkers(workers), maxBuffer) then Crashed
        else
          var slugs := ScanInputs({}, seq(|names|, i requires 0 <= i < |names| => read(names[i])));
          if !written then Failed(WriteFailed)
          else Wrote(SlugsTarget(ParsePath(outDir)), slugs, if inPath.s3 then EffectiveWorkers(workers) else 0)
  }

  /** The two agree except where the written version crashes, which it does for a
      bucket input, a successful listing and a worker count that is negative or
      beyond the buffer limit. Once the clamp comes first, a count within the limit
      never crashes. */
  lemma RunOnceAgrees(inputDir: string, outDir: string, workers: int, maxBuffer: nat,
                      listing: Result<seq<string>, ListError>, read: string -> Input, written: bool)
    requires maxBuffer >= 1
    ensures RunOnceAsWritten(inputDir, outDir, workers, maxBuffer, listing, read, written) == Crashed <==>
              inputDir != "" && outDir != "" && listing.Ok? && ParsePath(inputDir).s3 && (workers < 0 || workers > maxBuffer)
    ensures RunOnceAsWritten(inputDir, outDir, workers, maxBuffer, listing, read, written) != Crashed ==>
              RunOnceAsWritten(inputDir, outDir, workers, maxBuffer, listing, read, written) ==
              RunOnce(inputDir, outDir, workers, maxBuffer, listing, read, written)
    ensures RunOnce(inputDir, outDir, workers, maxBuffer, listing, read, written) == Crashed <==>
              inputDir != "" && outDir != "" && listing.Ok? && ParsePath(inputDir).s3 && workers > maxBuffer
  {
  }

  /** The smallest run that shows it: input "s3://b", output "out", -workers=-1 and
      an empty listing crash as written, and write an empty slug file once the clamp
      comes first. */
  lemma RunOnceCrashExample(read: string -> Input, maxBuffer: nat)
    requires maxBuffer >= 1
    ensures RunOnceAsWritten("s3://b", "out", -1, maxBuffer, Ok([]), read, true) == Crashed
    ensures RunOnce("s3://b", "out", -1, maxBuffer, Ok([]), read, true) == Wrote(LocalFile("out", SlugsFile), {}, 1)
  {
    assert StartsWith("s3://b", Scheme);
    assert !StartsWith("out", Scheme);
  }

  /** A successful run writes exactly the slugs found in the readable listed
      inputs. */
  lemma RunOnceSlugs(inputDir: string, outDir: string, workers: int, maxBuffer: nat,
                     names: seq<string>, read: string -> Input, s: string)
    requires RunOnce(inputDir, outDir, workers, maxBuffer, Ok(names), read, true).Wrote?
    ensures s in RunOnce(inputDir, outDir, workers, maxBuffer, Ok(names), read, true).slugs <==>
              exists i :: 0 <= i < |names| && FoundIn(read(names[i]), s)
  {
    var inputs := seq(|names|, i requires 0 <= i < |names| => read(names[i]));
    ScanInputsSpec({}, inputs);
    if exists j :: 0 <= j < |inputs| && FoundIn(inputs[j], s) {
      var j :| 0 <= j < |inputs| && FoundIn(inputs[j], s);
      assert FoundIn(read(names[j]), s);
    }
    if exists i :: 0 <= i < |names| && FoundIn(read(names[i]), s) {
      var i :| 0 <= i < |names| && FoundIn(read(names[i]), s);
      assert FoundIn(inputs[i], s);
    }
  }
}
