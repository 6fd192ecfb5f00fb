/** The full harvester's per-item steps: seeding users and posts from slugs
    (fetchUsersFromSlugs) and harvesting one user (processUser). Nothing it does
    replaces a file that already exists. */
module FullHarvest {
  import opened Results
  import opened Seqs
  import opened Json
  import opened Rewrite
  import opened EntityIds
  import opened PostIds
  import opened Media
  import opened Archive

  /** Every file added since `a` is a media file, or a document with no legacy
      prefix left in any of its strings. */
  ghost predicate AddsClean(a: Store, b: Store) {
    forall p :: p in b && p !in a ==> p.MediaFile? || (b[p].Doc? && AllStrings(b[p].doc, NoLegacy))
  }

  lemma AddsCleanTransitive(a: Store, b: Store, c: Store)
    requires Keeps(a, b) && Keeps(b, c) && AddsClean(a, b) && AddsClean(b, c)
    ensures AddsClean(a, c)
  {
  }

  /** Writing a rewritten document keeps the additions clean. */
  lemma WriteRewritten(env: Env, store: Store, p: Path, doc: Value)
    ensures AddsClean(store, WriteDoc(env, store, p, RewriteFull(doc)))
  {
    RewriteFullCleans(doc);
  }

  // ---------------------------------------------------------------------------
  // Seeding from slugs

  /** The owner a slug's post names, when the post can be fetched and names one. */
  function SeedOwner(env: Env, slug: string): Option<string> {
    match AsMap(env.postAt(slug))
    case Err(_) => None
    case Ok(doc) =>
      var uid := UserIdOf(Members(RewriteFull(doc)));
      if uid == "" then None else Some(uid)
  }

  /** One slug: fetch its post, rewrite it, record its owner and save it under the
      owner as `<real post id>.json` unless that file exists. A post without an
      owner is dropped. */
  function Seed(env: Env, st: State, slug: string): (r: State)
    ensures r.media == st.media
    ensures r.log == st.log + [GetPost(slug)]
    ensures r.users == if SeedOwner(env, slug).Some? then st.users + {SeedOwner(env, slug).value} else st.users
    ensures Keeps(st.store, r.store) && AddsClean(st.store, r.store)
    ensures SeedOwner(env, slug).None? ==> r.store == st.store
    ensures forall p :: p in r.store && p !in st.store ==>
              p.PostFile? && SeedOwner(env, slug) == Some(p.user) && env.writable(p)
  {
    var st1 := st.(log := st.log + [GetPost(slug)]);
    match AsMap(env.postAt(slug))
    case Err(_) => st1
    case Ok(doc) =>
      var data := RewriteFull(doc);
      var uid := UserIdOf(Members(data));
      var name := PostIdOf(Members(data), slug);
      if uid == "" then st1
      else
        var st2 := st1.(users := st1.users + {uid});
        var file := PostFile(uid, name);
        WriteRewritten(env, st2.store, file, doc);
        if file in st2.store then st2 else st2.(store := WriteDoc(env, st2.store, file, data))
  }

  function SeedAll(env: Env, st: State, slugs: seq<string>): (r: State)
    ensures r.media == st.media
    ensures Keeps(st.store, r.store) && AddsClean(st.store, r.store)
    decreases |slugs|
  {
    if slugs == [] then st
    else
      var mid := Seed(env, st, slugs[0]);
      var r := SeedAll(env, mid, slugs[1..]);
      KeepsTransitive(st.store, mid.store, r.store);
      AddsCleanTransitive(st.store, mid.store, r.store);
      r
  }

  /** The recorded users are exactly those already recorded and the owners named by
      the slugs' posts; every slug's post is requested once, in order. */
  lemma SeedAllSpec(env: Env, st: State, slugs: seq<string>)
    ensures forall u :: u in SeedAll(env, st, slugs).users <==>
              u in st.users || exists i :: 0 <= i < |slugs| && SeedOwner(env, slugs[i]) == Some(u)
    ensures SeedAll(env, st, slugs).log == st.log + seq(|slugs|, i requires 0 <= i < |slugs| => GetPost(slugs[i]))
    ensures "" !in st.users ==> "" !in SeedAll(env, st, slugs).users
  {
    SeedAllUsers(env, st, slugs);
    SeedAllLog(env, st, slugs);
  }

  lemma {:induction false} SeedAllUsers(env: Env, st: State, slugs: seq<string>)
    ensures forall u :: u in SeedAll(env, st, slugs).users <==>
              u in st.users || exists i :: 0 <= i < |slugs| && SeedOwner(env, slugs[i]) == Some(u)
    decreases |slugs|
  {
    if slugs != [] {
      var mid := Seed(env, st, slugs[0]);
      SeedAllUsers(env, mid, slugs[1..]);
      forall u ensures (exists i :: 0 <= i < |slugs| && SeedOwner(env, slugs[i]) == Some(u)) <==>
                       SeedOwner(env, slugs[0]) == Some(u) || exists i :: 0 <= i < |slugs[1..]| && SeedOwner(env, slugs[1..][i]) == Some(u)
      {
        if exists i :: 0 <= i < |slugs| && SeedOwner(env, slugs[i]) == Some(u) {
          var i :| 0 <= i < |slugs| && SeedOwner(env, slugs[i]) == Some(u);
          if i > 0 {
            assert slugs[1..][i - 1] == slugs[i];
          }
        }
      }
    }
  }

  lemma {:induction false} SeedAllLog(env: Env, st: State, slugs: seq<string>)
    ensures SeedAll(env, st, slugs).log == st.log + seq(|slugs|, i requires 0 <= i < |slugs| => GetPost(slugs[i]))
    decreases |slugs|
  {
    if slugs != [] {
      var mid := Seed(env, st, slugs[0]);
      SeedAllLog(env, mid, slugs[1..]);
      assert st.log + [GetPost(slugs[0])] + seq(|slugs[1..]|, i requires 0 <= i < |slugs[1..]| => GetPost(slugs[1..][i]))
          == st.log + seq(|slugs|, i requires 0 <= i < |slugs| => GetPost(slugs[i]));
    }
  }

  // ---------------------------------------------------------------------------
  // One user

  /** The profile as step 2 of processUser reads it back from its file. */
  function ReadProfile(store: Store, uid: string): Result<seq<Field>, Failure> {
    var pp := ProfileFile(uid);
    if pp in store && store[pp].Doc? && (store[pp].doc.Obj? || store[pp].doc.Null?) then Ok(Members(store[pp].doc))
    else Err(ProfileRead)
  }

  datatype Loaded = Loaded(state: State, profile: Result<seq<Field>, Failure>)

  /** Steps 1 and 2 of processUser: fetch, rewrite and save the profile only when its
      file is missing, then read the file back. */
  function LoadProfile(env: Env, st: State, uid: string): (r: Loaded)
    ensures r.state.media == st.media && r.state.users == st.users
    ensures Keeps(st.store, r.state.store) && AddsClean(st.store, r.state.store)
    ensures r.state.log == if ProfileFile(uid) in st.store then st.log else st.log + [GetProfile(uid)]
    ensures r.profile.Ok? ==> r.profile == ReadProfile(r.state.store, uid)
  {
    var pp := ProfileFile(uid);
    if pp in st.store then Loaded(st, ReadProfile(st.store, uid))
    else
      var st1 := st.(log := st.log + [GetProfile(uid)]);
      match AsMap(env.profileAt(uid))
      case Err(e) => Loaded(st1, Err(ProfileFetch(e)))
      case Ok(doc) =>
        if !env.writable(pp) then Loaded(st1, Err(ProfileWrite))
        else
          var st2 := st1.(store := WriteDoc(env, st1.store, pp, RewriteFull(doc)));
          WriteRewritten(env, st1.store, pp, doc);
          Loaded(st2, ReadProfile(st2.store, uid))
  }

  /** A profile that fetchJSONMap accepts as a map, once rewritten and saved, reads
      back as a map: step 2 gets the rewritten fields and never fails to decode. */
  lemma FreshProfileReadsBack(env: Env, st: State, uid: string)
    requires ProfileFile(uid) !in st.store && env.writable(ProfileFile(uid))
    requires AsMap(env.profileAt(uid)).Ok?
    ensures LoadProfile(env, st, uid).profile == Ok(Members(RewriteFull(env.profileAt(uid).value)))
  {
    RewriteFullCleans(env.profileAt(uid).value);
  }

  /** The file the full harvester saves a fetched post under. */
  function PostFileOf(uid: string, pid: string, doc: Value): Path {
    PostFile(uid, PostIdOf(Members(doc), pid))
  }

  /** One post of the loop: fetch it first, name its file by the real post id, and
      stop if that file exists; otherwise rewrite, save, and fetch its media (also
      when the save failed). */
  function PostFull(env: Env, st: State, uid: string, pid: string): (r: State)
    ensures r.users == st.users && st.media <= r.media
    ensures Keeps(st.store, r.store) && AddsClean(st.store, r.store)
    ensures st.log + [GetPost(pid)] <= r.log && forall i :: |st.log| < i < |r.log| ==> r.log[i].GetMedia?
  {
    var st1 := st.(log := st.log + [GetPost(pid)]);
    match AsMap(env.postAt(pid))
    case Err(_) => st1
    case Ok(doc) =>
      var file := PostFileOf(uid, pid, doc);
      if file in st1.store then st1
      else
        var data := RewriteFull(doc);
        var st2 := st1.(store := WriteDoc(env, st1.store, file, data));
        WriteRewritten(env, st1.store, file, doc);
        if env.download then
          var st3 := DownloadAll(env, st2, CollectMedia(data));
          KeepsTransitive(st1.store, st2.store, st3.store);
          st3
        else st2
  }

  /** The only document a post can add is the rewritten post, saved under its real
      post id; anything else added is media. */
  lemma PostFullNewFile(env: Env, st: State, uid: string, pid: string, p: Path)
    requires p in PostFull(env, st, uid, pid).store && p !in st.store && !p.MediaFile?
    ensures AsMap(env.postAt(pid)).Ok?
    ensures p == PostFileOf(uid, pid, env.postAt(pid).value)
    ensures PostFull(env, st, uid, pid).store[p] == Doc(RewriteFull(env.postAt(pid).value))
  {
  }

  function PostsFull(env: Env, st: State, uid: string, pids: seq<string>): (r: State)
    ensures r.users == st.users && st.media <= r.media
    ensures Keeps(st.store, r.store) && AddsClean(st.store, r.store)
    ensures st.log <= r.log
    decreases |pids|
  {
    if pids == [] then st
    else
      var mid := PostFull(env, st, uid, pids[0]);
      var r := PostsFull(env, mid, uid, pids[1..]);
      KeepsTransitive(st.store, mid.store, r.store);
      AddsCleanTransitive(st.store, mid.store, r.store);
      r
  }

  /** processUser of the full harvester. */
  function ProcessUserFull(env: Env, st: State, uid: string): (r: Step)
    ensures r.state.users == st.users
    ensures Keeps(st.store, r.state.store) && AddsClean(st.store, r.state.store)
  {
    var l := LoadProfile(env, st, uid);
    match l.profile
    case Err(f) => Step(l.state, Failed(f))
    case Ok(fs) =>
      var r := PostsFull(env, l.state, uid, CollectPostIds(fs));
      KeepsTransitive(st.store, l.state.store, r.store);
      AddsCleanTransitive(st.store, l.state.store, r.store);
      Step(r, Done)
  }

  /** The profile is requested exactly when its file is missing, and a user whose
      profile is fetchable and writable, or already saved as an object, ends with a
      saved profile and is harvested. */
  lemma ProcessUserFullProfile(env: Env, st: State, uid: string)
    ensures var r := ProcessUserFull(env, st, uid);
            |st.log| < |r.state.log| && r.state.log[|st.log|] == GetProfile(uid) <==> ProfileFile(uid) !in st.store
    ensures var r := ProcessUserFull(env, st, uid);
            (if ProfileFile(uid) in st.store then ReadProfile(st.store, uid).Ok?
             else AsMap(env.profileAt(uid)).Ok? && env.writable(ProfileFile(uid)))
            <==> r.outcome == Done
    ensures var r := ProcessUserFull(env, st, uid);
            r.outcome == Done ==> ProfileFile(uid) in r.state.store
  {
    var l := LoadProfile(env, st, uid);
    if l.profile.Ok? {
      PostsLogShape(env, l.state, uid, CollectPostIds(l.profile.value));
    }
  }

  /** The post loop only appends post and media requests. */
  lemma {:induction false} PostsLogShape(env: Env, st: State, uid: string, pids: seq<string>)
    ensures forall i :: |st.log| <= i < |PostsFull(env, st, uid, pids).log| ==>
              PostsFull(env, st, uid, pids).log[i].GetPost? || PostsFull(env, st, uid, pids).log[i].GetMedia?
    decreases |pids|
  {
    if pids != [] {
      var mid := PostFull(env, st, uid, pids[0]);
      PostsLogShape(env, mid, uid, pids[1..]);
      var r := PostsFull(env, mid, uid, pids[1..]);
      assert st.log + [GetPost(pids[0])] <= mid.log <= r.log;
      forall i | |st.log| <= i < |r.log|
        ensures r.log[i].GetPost? || r.log[i].GetMedia?
      {
        if i < |mid.log| {
          assert r.log[i] == mid.log[i];
          if i == |st.log| {
            assert mid.log[i] == (st.log + [GetPost(pids[0])])[i];
            assert mid.log[i].GetPost?;
          } else {
            assert mid.log[i].GetMedia?;
          }
        } else {
          assert r.log[i].GetPost? || r.log[i].GetMedia?;
        }
      }
    }
  }

  // ---------------------------------------------------------------------------
  // Running a user again

  /** Handling post `pid` again would change nothing but the log: it cannot be
      fetched, its file exists, or it cannot be saved and every parsable media URL it
      names is already claimed. */
  ghost predicate SettledFull(env: Env, s: State, uid: string, pid: string) {
    || AsMap(env.postAt(pid)).Err?
    || (var doc := env.postAt(pid).value;
        var file := PostFileOf(uid, pid, doc);
        || file in s.store
        || (&& !env.writable(file)
            && (env.download ==>
                  forall u :: u in CollectMedia(RewriteFull(doc)) && env.urlPath(u).Some? ==> u in s.media)))
  }

  lemma SettledFullStays(env: Env, s: State, t: State, uid: string, pid: string)
    requires Keeps(s.store, t.store) && s.media <= t.media
    requires SettledFull(env, s, uid, pid)
    ensures SettledFull(env, t, uid, pid)
  {
  }

  /** Handling a post settles it. */
  lemma PostFullSettles(env: Env, st: State, uid: string, pid: string)
    ensures SettledFull(env, PostFull(env, st, uid, pid), uid, pid)
  {
  }

  /** A settled post is fetched again and nothing else happens. */
  lemma PostFullOfSettled(env: Env, st: State, uid: string, pid: string)
    requires SettledFull(env, st, uid, pid)
    ensures PostFull(env, st, uid, pid) == st.(log := st.log + [GetPost(pid)])
  {
    if AsMap(env.postAt(pid)).Ok? && PostFileOf(uid, pid, env.postAt(pid).value) !in st.store && env.download {
      var doc := env.postAt(pid).value;
      var st1 := st.(log := st.log + [GetPost(pid)]);
      DownloadAllClaimed(env, st1, CollectMedia(RewriteFull(doc)));
    }
  }

  /** After the loop every listed post is settled. */
  lemma {:induction false} PostsFullSettles(env: Env, st: State, uid: string, pids: seq<string>)
    ensures forall p :: p in pids ==> SettledFull(env, PostsFull(env, st, uid, pids), uid, p)
    decreases |pids|
  {
    if pids != [] {
      var mid := PostFull(env, st, uid, pids[0]);
      var r := PostsFull(env, mid, uid, pids[1..]);
      PostsFullSettles(env, mid, uid, pids[1..]);
      PostFullSettles(env, st, uid, pids[0]);
      SettledFullStays(env, mid, r, uid, pids[0]);
      assert forall p :: p in pids ==> p == pids[0] || p in pids[1..];
    }
  }

  /** A request for every listed post, in order. */
  function PostRequests(pids: seq<string>): (r: seq<Request>)
    ensures |r| == |pids| && forall i :: 0 <= i < |pids| ==> r[i] == GetPost(pids[i])
  {
    seq(|pids|, i requires 0 <= i < |pids| => GetPost(pids[i]))
  }

  /** A loop over settled posts only requests each of them again. */
  lemma {:induction false} PostsFullOfSettled(env: Env, st: State, uid: string, pids: seq<string>)
    requires forall p :: p in pids ==> SettledFull(env, st, uid, p)
    ensures PostsFull(env, st, uid, pids) == st.(log := st.log + PostRequests(pids))
    decreases |pids|
  {
    if pids != [] {
      var mid := st.(log := st.log + [GetPost(pids[0])]);
      SettledHead(env, st, uid, pids);
      PostsFullOfSettled(env, mid, uid, pids[1..]);
      PostRequestsCons(st.log, pids);
    }
  }

  /** The first of a list of settled posts is only requested again, and the others
      stay settled. */
  lemma SettledHead(env: Env, st: State, uid: string, pids: seq<string>)
    requires pids != [] && forall p :: p in pids ==> SettledFull(env, st, uid, p)
    ensures var mid := st.(log := st.log + [GetPost(pids[0])]);
            && PostsFull(env, st, uid, pids) == PostsFull(env, mid, uid, pids[1..])
            && forall p :: p in pids[1..] ==> SettledFull(env, mid, uid, p)
  {
    PostFullOfSettled(env, st, uid, pids[0]);
    var mid := st.(log := st.log + [GetPost(pids[0])]);
    forall p | p in pids[1..] ensures SettledFull(env, mid, uid, p) {
      assert SettledFull(env, st, uid, p);
    }
  }

  lemma PostRequestsCons(log: seq<Request>, pids: seq<string>)
    requires pids != []
    ensures log + [GetPost(pids[0])] + PostRequests(pids[1..]) == log + PostRequests(pids)
  {
    assert [GetPost(pids[0])] + PostRequests(pids[1..]) == PostRequests(pids);
  }

  /** Running a harvested user a second time against the same archive changes no
      file and claims no media; it requests every listed post again and nothing
      else, since the full harvester fetches a post before looking for its file. */
  lemma FullRerun(env: Env, st: State, uid: string)
    requires ProcessUserFull(env, st, uid).outcome == Done
    ensures var r1 := ProcessUserFull(env, st, uid).state;
            var r2 := ProcessUserFull(env, r1, uid);
            && r2.outcome == Done
            && r2.state == r1.(log := r1.log + PostRequests(CollectPostIds(ReadProfile(r1.store, uid).value)))
  {
    var l := LoadProfile(env, st, uid);
    var pids := CollectPostIds(l.profile.value);
    var r1 := PostsFull(env, l.state, uid, pids);
    assert ProcessUserFull(env, st, uid) == Step(r1, Done);
    ProcessUserFullProfile(env, st, uid);
    assert ReadProfile(r1.store, uid) == l.profile;
    assert LoadProfile(env, r1, uid) == Loaded(r1, l.profile);
    PostsFullSettles(env, l.state, uid, pids);
    PostsFullOfSettled(env, r1, uid, pids);
  }
}
