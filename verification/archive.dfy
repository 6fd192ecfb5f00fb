/** The world a harvester acts on: the output tree, the remote archive, and the
    bookkeeping a run keeps in memory. Requests to the archive are answered by fixed
    functions of the identifier requested, so two runs against the same archive see
    the same answers. */
module Archive {
  import opened Results
  import opened Json

  /** Files under the output directory: `profiles/<user>.json`,
      `posts/<user>/<post>.json` and `media/<path>`. */
  datatype Path =
    | ProfileFile(user: string)
    | PostFile(user: string, post: string)
    | MediaFile(rel: string)

  /** A saved JSON document, or the bytes downloaded from a media URL. */
  datatype Content = Doc(doc: Value) | Blob(source: string)

  type Store = map<Path, Content>

  /** The requests a harvester makes of the archive. */
  datatype Request = GetProfile(id: string) | GetPost(id: string) | GetMedia(url: string)

  datatype FetchError =
    | Transport       // the HTTP client failed
    | HttpStatus(code: int)  // any status other than 200
    | Undecodable     // the body is not JSON
    | NotAnObject     // the body is JSON but does not decode into a map

  /** The remote archive and the file system, as seen by one run. `profileAt` and
      `postAt` answer a request for an identifier with the decoded body or an error;
      `mediaOk` says whether a media download completes; `urlPath` is url.Parse's
      path component (none when the URL does not parse); `writable` says whether
      writing a file succeeds; `download` is the -download flag. */
  datatype Env = Env(
    profileAt: string -> Result<Value, FetchError>,
    postAt: string -> Result<Value, FetchError>,
    mediaOk: string -> bool,
    urlPath: string -> Option<string>,
    writable: Path -> bool,
    download: bool)

  /** The output tree, the media URLs already claimed for download in this process,
      the users recorded by the seeding step, and the archive requests made so far. */
  datatype State = State(store: Store, media: set<string>, users: set<string>, log: seq<Request>)

  /** fetchJSONMap: the body must decode into `map[string]interface{}`. A JSON null
      decodes to a nil map without error. */
  function AsMap(r: Result<Value, FetchError>): (m: Result<Value, FetchError>)
    ensures m.Ok? <==> r.Ok? && (r.value.Obj? || r.value.Null?)
    ensures m.Ok? ==> m.value == r.value
    ensures r.Err? ==> m == r
  {
    match r
    case Ok(v) => if v.Obj? || v.Null? then Ok(v) else Err(NotAnObject)
    case Err(e) => Err(e)
  }

  /** writeJSONFile: the document replaces the file when writing succeeds; a failed
      write leaves the file as it was. */
  function WriteDoc(env: Env, store: Store, p: Path, v: Value): (r: Store)
    ensures env.writable(p) ==> p in r && r[p] == Doc(v)
    ensures forall q :: q in store && q != p ==> q in r && r[q] == store[q]
    ensures forall q :: q in r ==> q in store || q == p
    ensures !env.writable(p) ==> r == store
  {
    if env.writable(p) then store[p := Doc(v)] else store
  }

  /** Why harvesting a user stopped: the profile could not be fetched, could not be
      saved, or (full harvester only) its saved file could not be read back. */
  datatype Failure = ProfileFetch(e: FetchError) | ProfileWrite | ProfileRead

  /** processUser returns nil, or the error that ended it. */
  datatype Outcome = Done | Failed(why: Failure)

  datatype Step = Step(state: State, outcome: Outcome)

  /** Every file of `a` is still in `b` with the same contents. */
  ghost predicate Keeps(a: Store, b: Store) {
    forall p :: p in a ==> p in b && b[p] == a[p]
  }

  lemma KeepsTransitive(a: Store, b: Store, c: Store)
    requires Keeps(a, b) && Keeps(b, c)
    ensures Keeps(a, c)
  {
  }
}
