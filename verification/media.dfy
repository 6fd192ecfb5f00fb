/** collectMediaURLs and downloadMedia: which strings of a saved post are media to
    fetch, and how a media URL becomes a file, once per process. */
module Media {
  import opened Results
  import opened Seqs
  import opened Text
  import opened Json
  import opened Archive

  const MirrorHost: string := "vines.s3.amazonaws.com"

  /** A string names media on the mirror: it mentions the mirror host and one of the
      media extensions, anywhere. */
  predicate IsMediaUrl(s: string) {
    && Contains(s, MirrorHost)
    && (Contains(s, ".mp4") || Contains(s, ".jpg") || Contains(s, ".jpeg") || Contains(s, ".png") || Contains(s, ".gif"))
  }

  /** Every string leaf that names media, in walk order, repeats included. */
  function CollectMedia(v: Value): (r: seq<string>)
    ensures forall i :: 0 <= i < |r| ==> IsMediaUrl(r[i])
  {
    match v
    case Str(s) => if IsMediaUrl(s) then [s] else []
    case Arr(xs) => ItemsMedia(xs)
    case Obj(fs) => FieldsMedia(fs)
    case _ => []
  }

  function ItemsMedia(xs: seq<Value>): (r: seq<string>)
    ensures forall i :: 0 <= i < |r| ==> IsMediaUrl(r[i])
  {
    if xs == [] then [] else CollectMedia(xs[0]) + ItemsMedia(xs[1..])
  }

  function FieldsMedia(fs: seq<Field>): (r: seq<string>)
    ensures forall i :: 0 <= i < |r| ==> IsMediaUrl(r[i])
  {
    if fs == [] then [] else CollectMedia(fs[0].val) + FieldsMedia(fs[1..])
  }

  /** The walk reports each media string exactly as often as it occurs as a leaf,
      and nothing else. */
  lemma {:induction false} CollectMediaCounts(v: Value, u: string)
    ensures multiset(CollectMedia(v))[u] == if IsMediaUrl(u) then LeafCount(v, u) else 0
  {
    match v
    case Str(s) =>
    case Arr(xs) => ItemsMediaCounts(xs, u);
    case Obj(fs) => FieldsMediaCounts(fs, u);
    case _ =>
  }

  lemma {:induction false} ItemsMediaCounts(xs: seq<Value>, u: string)
    ensures multiset(ItemsMedia(xs))[u] == if IsMediaUrl(u) then ItemsLeafCount(xs, u) else 0
  {
    if xs != [] {
      CollectMediaCounts(xs[0], u);
      ItemsMediaCounts(xs[1..], u);
    }
  }

  lemma {:induction false} FieldsMediaCounts(fs: seq<Field>, u: string)
    ensures multiset(FieldsMedia(fs))[u] == if IsMediaUrl(u) then FieldsLeafCount(fs, u) else 0
  {
    if fs != [] {
      CollectMediaCounts(fs[0].val, u);
      FieldsMediaCounts(fs[1..], u);
    }
  }

  /** Where a media URL is saved: its URL path without leading slashes. */
  function MediaFileOf(path: string): Path {
    MediaFile(TrimLeftBy(path, IsSlash))
  }

  /** downloadMedia: an unparsable URL is refused; a URL already claimed in this
      process is skipped; otherwise it is claimed, and fetched unless its file
      exists (an empty path names the media directory itself, which exists). */
  function DownloadMedia(env: Env, st: State, url: string): (r: State)
    ensures r.users == st.users
    ensures Keeps(st.store, r.store)
    ensures forall p :: p in r.store && p !in st.store ==> p.MediaFile?
    ensures st.log <= r.log && forall i :: |st.log| <= i < |r.log| ==> r.log[i] == GetMedia(url)
    ensures r.media == if env.urlPath(url).Some? then st.media + {url} else st.media
  {
    match env.urlPath(url)
    case None => st
    case Some(path) =>
      if url in st.media then st
      else
        var claimed := st.(media := st.media + {url});
        var file := MediaFileOf(path);
        if file.rel == "" || file in st.store then claimed
        else
          var requested := claimed.(log := st.log + [GetMedia(url)]);
          if env.mediaOk(url) && env.writable(file) then requested.(store := st.store[file := Blob(url)])
          else requested
  }

  /** Every media request in the log is for a claimed URL, and no URL is requested
      twice. */
  ghost predicate MediaOnce(st: State) {
    && (forall i :: 0 <= i < |st.log| && st.log[i].GetMedia? ==> st.log[i].url in st.media)
    && (forall i, j :: 0 <= i < j < |st.log| && st.log[i].GetMedia? && st.log[j].GetMedia? ==> st.log[i].url != st.log[j].url)
  }

  /** A single download keeps the request-once invariant; the only file it can add
      is the URL's own, holding that URL's bytes. */
  lemma DownloadMediaOnce(env: Env, st: State, url: string)
    requires MediaOnce(st)
    ensures MediaOnce(DownloadMedia(env, st, url))
    ensures var r := DownloadMedia(env, st, url);
            forall p :: p in r.store && p !in st.store ==>
              env.urlPath(url).Some? && p == MediaFileOf(env.urlPath(url).value) && r.store[p] == Blob(url)
    ensures var r := DownloadMedia(env, st, url);
            r.log == st.log || (url !in st.media && r.log == st.log + [GetMedia(url)])
  {
  }

  /** A URL claimed once is never handled again. */
  lemma DownloadMediaIdempotent(env: Env, st: State, url: string)
    ensures DownloadMedia(env, DownloadMedia(env, st, url), url) == DownloadMedia(env, st, url)
  {
  }

  /** The media step of a post: every collected URL in turn. Afterwards every
      parsable URL of the post is claimed, and nothing else is newly claimed. */
  function DownloadAll(env: Env, st: State, urls: seq<string>): (r: State)
    ensures r.users == st.users
    ensures Keeps(st.store, r.store)
    ensures forall p :: p in r.store && p !in st.store ==> p.MediaFile?
    ensures st.log <= r.log && forall i :: |st.log| <= i < |r.log| ==> r.log[i].GetMedia?
    ensures r.media == st.media + set u | u in urls && env.urlPath(u).Some?
    decreases |urls|
  {
    if urls == [] then st
    else
      var r := DownloadAll(env, DownloadMedia(env, st, urls[0]), urls[1..]);
      KeepsTransitive(st.store, DownloadMedia(env, st, urls[0]).store, r.store);
      r
  }

  /** A media step whose parsable URLs are all claimed already does nothing. */
  lemma {:induction false} DownloadAllClaimed(env: Env, st: State, urls: seq<string>)
    requires forall u :: u in urls && env.urlPath(u).Some? ==> u in st.media
    ensures DownloadAll(env, st, urls) == st
    decreases |urls|
  {
    if urls != [] {
      assert DownloadMedia(env, st, urls[0]) == st;
      DownloadAllClaimed(env, st, urls[1..]);
    }
  }

  /** Across a whole media step each URL is still requested at most once in the
      process, and only after being claimed. */
  lemma {:induction false} DownloadAllSpec(env: Env, st: State, urls: seq<string>)
    requires MediaOnce(st)
    ensures MediaOnce(DownloadAll(env, st, urls))
    decreases |urls|
  {
    if urls != [] {
      DownloadMediaOnce(env, st, urls[0]);
      DownloadAllSpec(env, DownloadMedia(env, st, urls[0]), urls[1..]);
    }
  }
}
