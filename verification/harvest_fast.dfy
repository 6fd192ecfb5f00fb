/** The fast harvester's processUser: it always refetches, rewrites and overwrites
    the profile, and then fetches only the posts whose file is missing, naming each
    file by the identifier found in the profile. */
module FastHarvest {
  import opened Results
  import opened Seqs
  import opened Json
  import opened Rewrite
  import opened PostIds
  import opened Media
  import opened Archive

  /** Every file of `a` other than `p` is still in `b` with the same contents. */
  ghost predicate KeepsExcept(a: Store, b: Store, p: Path) {
    forall q :: q in a && q != p ==> q in b && b[q] == a[q]
  }

  /** Every file added or replaced since `a` is a media file, or a document with no
      video-CDN prefix left in any of its strings. */
  ghost predicate WritesClean(a: Store, b: Store) {
    forall p :: p in b && (p !in a || b[p] != a[p]) ==>
      p.MediaFile? || (b[p].Doc? && AllStrings(b[p].doc, NoVideoCdn))
  }

  lemma WritesCleanTransitive(a: Store, b: Store, c: Store)
    requires WritesClean(a, b) && WritesClean(b, c)
    ensures WritesClean(a, c)
  {
  }

  /** A fetched post whose file is missing: rewrite and save it, then fetch its
      media (also when the save failed). */
  function SaveFetchedPost(env: Env, st: State, file: Path, doc: Value): (r: State)
    requires file.PostFile? && file !in st.store
    ensures r.users == st.users && st.media <= r.media
    ensures Keeps(st.store, r.store) && WritesClean(st.store, r.store)
    ensures forall p :: p in r.store && p !in st.store ==> p == file || p.MediaFile?
    ensures st.log <= r.log && forall i :: |st.log| <= i < |r.log| ==> r.log[i].GetMedia?
    ensures file in r.store <==> env.writable(file)
    ensures file in r.store ==> r.store[file] == Doc(RewriteFast(doc))
  {
    var data := RewriteFast(doc);
    RewriteFastCleans(doc);
    var st2 := st.(store := WriteDoc(env, st.store, file, data));
    if env.download then DownloadAll(env, st2, CollectMedia(data)) else st2
  }

  /** One post of the loop: skip it when its file exists; otherwise fetch it, rewrite
      and save it, and fetch its media (also when the save failed). */
  function PostFast(env: Env, st: State, uid: string, pid: string): (r: State)
    ensures r.users == st.users && st.media <= r.media
    ensures Keeps(st.store, r.store) && WritesClean(st.store, r.store)
    ensures forall p :: p in r.store && p !in st.store ==> p == PostFile(uid, pid) || p.MediaFile?
    ensures st.log <= r.log
    ensures forall p :: GetPost(p) in r.log[|st.log|..] <==> p == pid && PostFile(uid, pid) !in st.store
    ensures forall i :: |st.log| <= i < |r.log| ==> r.log[i].GetPost? || r.log[i].GetMedia?
    ensures var file := PostFile(uid, pid);
            file !in st.store ==>
              (file in r.store <==> AsMap(env.postAt(pid)).Ok? && env.writable(file))
    ensures var file := PostFile(uid, pid);
            file !in st.store && file in r.store ==> r.store[file] == Doc(RewriteFast(env.postAt(pid).value))
  {
    var file := PostFile(uid, pid);
    if file in st.store then st
    else
      var st1 := st.(log := st.log + [GetPost(pid)]);
      var r := match AsMap(env.postAt(pid))
        case Err(_) => st1
        case Ok(doc) => SaveFetchedPost(env, st1, file, doc);
      OnePostRequest(st.log, pid, r.log);
      r
  }

  /** A log that continues `prior` with one post request and then only media
      requests asks for that post alone. */
  lemma OnePostRequest(prior: seq<Request>, pid: string, log: seq<Request>)
    requires prior + [GetPost(pid)] <= log
    requires forall i :: |prior| + 1 <= i < |log| ==> log[i].GetMedia?
    ensures forall p :: GetPost(p) in log[|prior|..] <==> p == pid
    ensures forall i :: |prior| <= i < |log| ==> log[i].GetPost? || log[i].GetMedia?
  {
    assert log[|prior|] == GetPost(pid);
    forall p | GetPost(p) in log[|prior|..] ensures p == pid {
      var i :| 0 <= i < |log[|prior|..]| && log[|prior|..][i] == GetPost(p);
      assert log[|prior| + i] == GetPost(p);
    }
  }

  function PostsFast(env: Env, st: State, uid: string, pids: seq<string>): (r: State)
    ensures r.users == st.users && st.media <= r.media
    ensures Keeps(st.store, r.store) && WritesClean(st.store, r.store)
    ensures forall p :: p in r.store && p !in st.store ==> p.MediaFile? || (p.PostFile? && p.user == uid && p.post in pids)
    ensures st.log <= r.log
    ensures forall i :: |st.log| <= i < |r.log| ==> r.log[i].GetPost? || r.log[i].GetMedia?
    decreases |pids|
  {
    if pids == [] then st
    else
      var mid := PostFast(env, st, uid, pids[0]);
      var r := PostsFast(env, mid, uid, pids[1..]);
      KeepsTransitive(st.store, mid.store, r.store);
      WritesCleanTransitive(st.store, mid.store, r.store);
      r
  }

  /** From position `from` on, `log` requests exactly the posts of `pids` that have no
      file under `uid` in `store`. */
  ghost predicate AsksForMissing(log: seq<Request>, from: nat, pids: seq<string>, uid: string, store: Store) {
    from <= |log| && forall p :: GetPost(p) in log[from..] <==> p in pids && PostFile(uid, p) !in store
  }

  /** A log that first asks for `pid` (when its file is missing) and then for the
      missing posts of `rest` asks for the missing posts of `[pid] + rest`. */
  lemma AsksCons(log: seq<Request>, from: nat, mid: nat, pids: seq<string>, uid: string, a: Store, b: Store)
    requires pids != [] && from <= mid <= |log|
    requires forall p :: GetPost(p) in log[from..mid] <==> p == pids[0] && PostFile(uid, pids[0]) !in a
    requires AsksForMissing(log, mid, pids[1..], uid, b)
    requires forall p :: p in pids[1..] ==> (PostFile(uid, p) in b <==> PostFile(uid, p) in a)
    ensures AsksForMissing(log, from, pids, uid, a)
  {
    assert log[from..] == log[from..mid] + log[mid..];
    assert forall p :: p in pids <==> p == pids[0] || p in pids[1..] by {
      assert pids == [pids[0]] + pids[1..];
    }
  }

  /** The first post of the loop touches no other listed post's file. */
  lemma FirstPostAlone(env: Env, st: State, uid: string, pids: seq<string>)
    requires pids != [] && Distinct(pids)
    ensures var mid := PostFast(env, st, uid, pids[0]);
            forall p :: p in pids[1..] ==> (PostFile(uid, p) in mid.store <==> PostFile(uid, p) in st.store)
  {
    forall p | p in pids[1..]
      ensures p != pids[0]
    {
      var k :| 0 <= k < |pids[1..]| && pids[1..][k] == p;
      assert pids[k + 1] == p;
    }
  }

  /** The loop requests exactly the listed posts whose file was missing when it
      started, each once. */
  lemma {:induction false} PostsFastRequests(env: Env, st: State, uid: string, pids: seq<string>)
    requires Distinct(pids)
    ensures AsksForMissing(PostsFast(env, st, uid, pids).log, |st.log|, pids, uid, st.store)
    decreases |pids|
  {
    if pids != [] {
      var mid := PostFast(env, st, uid, pids[0]);
      var r := PostsFast(env, mid, uid, pids[1..]);
      assert Distinct(pids[1..]);
      PostsFastRequests(env, mid, uid, pids[1..]);
      FirstPostRequests(env, st, uid, pids);
      AsksCons(r.log, |st.log|, |mid.log|, pids, uid, st.store, mid.store);
    }
  }

  /** The first post of the loop asks for itself alone, and only when its file is
      missing, and leaves the other listed posts' files as they were. */
  lemma FirstPostRequests(env: Env, st: State, uid: string, pids: seq<string>)
    requires Distinct(pids) && pids != []
    ensures var mid := PostFast(env, st, uid, pids[0]);
            var r := PostsFast(env, mid, uid, pids[1..]);
            && |st.log| <= |mid.log| <= |r.log|
            && (forall p :: GetPost(p) in r.log[|st.log|..|mid.log|] <==> p == pids[0] && PostFile(uid, pids[0]) !in st.store)
            && (forall p :: p in pids[1..] ==> (PostFile(uid, p) in mid.store <==> PostFile(uid, p) in st.store))
  {
    var mid := PostFast(env, st, uid, pids[0]);
    var r := PostsFast(env, mid, uid, pids[1..]);
    assert r.log[|st.log|..|mid.log|] == mid.log[|st.log|..];
    FirstPostAlone(env, st, uid, pids);
  }

  /** A listed post whose file was missing is saved exactly when it can be fetched
      and written, and then holds the rewritten post. */
  lemma {:induction false} PostsFastSaves(env: Env, st: State, uid: string, pids: seq<string>, p: string)
    requires p in pids && PostFile(uid, p) !in st.store
    ensures var r := PostsFast(env, st, uid, pids);
            PostFile(uid, p) in r.store <==> AsMap(env.postAt(p)).Ok? && env.writable(PostFile(uid, p))
    ensures var r := PostsFast(env, st, uid, pids);
            PostFile(uid, p) in r.store ==> r.store[PostFile(uid, p)] == Doc(RewriteFast(env.postAt(p).value))
    decreases |pids|
  {
    var mid := PostFast(env, st, uid, pids[0]);
    var r := PostsFast(env, mid, uid, pids[1..]);
    if PostFile(uid, p) in mid.store {
      assert p == pids[0];
    } else if p in pids[1..] {
      PostsFastSaves(env, mid, uid, pids[1..], p);
    } else {
      assert p == pids[0];
    }
  }

  /** processUser of the fast harvester: the profile is always requested, and the
      user is harvested exactly when the profile can be fetched and saved. */
  function ProcessUserFast(env: Env, st: State, uid: string): (r: Step)
    ensures r.state.users == st.users
    ensures st.log + [GetProfile(uid)] <= r.state.log
    ensures r.outcome == Done <==> AsMap(env.profileAt(uid)).Ok? && env.writable(ProfileFile(uid))
    ensures r.outcome.Failed? ==> r.state == st.(log := st.log + [GetProfile(uid)])
  {
    var pp := ProfileFile(uid);
    var st1 := st.(log := st.log + [GetProfile(uid)]);
    match AsMap(env.profileAt(uid))
    case Err(e) => Step(st1, Failed(ProfileFetch(e)))
    case Ok(doc) =>
      var profile := RewriteFast(doc);
      if !env.writable(pp) then Step(st1, Failed(ProfileWrite))
      else
        var st2 := st1.(store := WriteDoc(env, st1.store, pp, profile));
        Step(PostsFast(env, st2, uid, CollectPostIds(Members(profile))), Done)
  }

  /** A run replaces at most the user's profile, keeps every other file, writes only
      cleaned documents, and leaves the rewritten profile in place when it succeeds. */
  lemma ProcessUserFastWrites(env: Env, st: State, uid: string)
    ensures var r := ProcessUserFast(env, st, uid);
            KeepsExcept(st.store, r.state.store, ProfileFile(uid)) && WritesClean(st.store, r.state.store)
    ensures var r := ProcessUserFast(env, st, uid);
            st.media <= r.state.media
    ensures var r := ProcessUserFast(env, st, uid);
            r.outcome == Done ==>
              ProfileFile(uid) in r.state.store &&
              r.state.store[ProfileFile(uid)] == Doc(RewriteFast(env.profileAt(uid).value))
  {
    var pp := ProfileFile(uid);
    var st1 := st.(log := st.log + [GetProfile(uid)]);
    if AsMap(env.profileAt(uid)).Ok? && env.writable(pp) {
      var doc := env.profileAt(uid).value;
      var st2 := st1.(store := WriteDoc(env, st1.store, pp, RewriteFast(doc)));
      RewriteFastCleans(doc);
      assert WritesClean(st.store, st2.store);
      var r := PostsFast(env, st2, uid, CollectPostIds(Members(RewriteFast(doc))));
      assert ProcessUserFast(env, st, uid) == Step(r, Done);
      WritesCleanTransitive(st.store, st2.store, r.store);
    }
  }

  /** The post identifiers the fast harvester reads from a user's profile. */
  function FastPostIds(env: Env, uid: string): seq<string>
    requires AsMap(env.profileAt(uid)).Ok?
  {
    CollectPostIds(Members(RewriteFast(env.profileAt(uid).value)))
  }

  /** After the profile, a harvested user's run requests exactly the posts listed in
      the rewritten profile whose file was missing. */
  lemma ProcessUserFastRequests(env: Env, st: State, uid: string)
    requires AsMap(env.profileAt(uid)).Ok? && env.writable(ProfileFile(uid))
    ensures AsksForMissing(ProcessUserFast(env, st, uid).state.log, |st.log|, FastPostIds(env, uid), uid, st.store)
  {
    var pids := FastPostIds(env, uid);
    var st1 := st.(log := st.log + [GetProfile(uid)]);
    var st2 := st1.(store := WriteDoc(env, st1.store, ProfileFile(uid), RewriteFast(env.profileAt(uid).value)));
    var r := PostsFast(env, st2, uid, pids);
    assert ProcessUserFast(env, st, uid) == Step(r, Done);
    CollectPostIdsSpec(Members(RewriteFast(env.profileAt(uid).value)));
    PostsFastRequests(env, st2, uid, pids);
    AsksAfterProfile(r.log, st.log, uid, pids, st.store, st2.store);
  }

  /** Requests counted from just after the profile request are the same as those
      counted from just before it, and the profile file does not affect post files. */
  lemma AsksAfterProfile(log: seq<Request>, prior: seq<Request>, uid: string, pids: seq<string>, a: Store, b: Store)
    requires prior + [GetProfile(uid)] <= log
    requires forall q :: q != ProfileFile(uid) ==> (q in a <==> q in b)
    requires AsksForMissing(log, |prior| + 1, pids, uid, b)
    ensures AsksForMissing(log, |prior|, pids, uid, a)
  {
    assert log[|prior|..] == [GetProfile(uid)] + log[|prior| + 1..];
    forall p ensures GetPost(p) in log[|prior|..] <==> GetPost(p) in log[|prior| + 1..] {
    }
    forall p ensures PostFile(uid, p) in a <==> PostFile(uid, p) in b {
    }
  }

  /** ... and saves each of those that can be fetched and written. */
  lemma ProcessUserFastSaves(env: Env, st: State, uid: string, p: string)
    requires AsMap(env.profileAt(uid)).Ok? && env.writable(ProfileFile(uid))
    requires p in FastPostIds(env, uid) && PostFile(uid, p) !in st.store
    ensures var r := ProcessUserFast(env, st, uid);
            PostFile(uid, p) in r.state.store <==> AsMap(env.postAt(p)).Ok? && env.writable(PostFile(uid, p))
  {
    var pids := FastPostIds(env, uid);
    var st1 := st.(log := st.log + [GetProfile(uid)]);
    var st2 := st1.(store := WriteDoc(env, st1.store, ProfileFile(uid), RewriteFast(env.profileAt(uid).value)));
    var r := PostsFast(env, st2, uid, pids);
    assert ProcessUserFast(env, st, uid) == Step(r, Done);
    PostsFastSaves(env, st2, uid, pids, p);
  }

  // ---------------------------------------------------------------------------
  // Running a user again

  /** Handling post `pid` again would change nothing but the log: its file exists,
      it cannot be fetched, or it cannot be saved and every parsable media URL it
      names is already claimed. */
  ghost predicate SettledFast(env: Env, s: State, uid: string, pid: string) {
    var file := PostFile(uid, pid);
    || file in s.store
    || AsMap(env.postAt(pid)).Err?
    || (&& !env.writable(file)
        && (env.download ==>
              forall u :: u in CollectMedia(RewriteFast(env.postAt(pid).value)) && env.urlPath(u).Some? ==> u in s.media))
  }

  lemma SettledFastStays(env: Env, s: State, t: State, uid: string, pid: string)
    requires Keeps(s.store, t.store) && s.media <= t.media
    requires SettledFast(env, s, uid, pid)
    ensures SettledFast(env, t, uid, pid)
  {
  }

  /** Handling a post settles it. */
  lemma PostFastSettles(env: Env, st: State, uid: string, pid: string)
    ensures SettledFast(env, PostFast(env, st, uid, pid), uid, pid)
  {
  }

  /** A settled post is skipped or refetched without effect on files or claims. */
  lemma PostFastOfSettled(env: Env, st: State, uid: string, pid: string)
    requires SettledFast(env, st, uid, pid)
    ensures PostFast(env, st, uid, pid).store == st.store
    ensures PostFast(env, st, uid, pid).media == st.media
  {
    var file := PostFile(uid, pid);
    if file !in st.store && AsMap(env.postAt(pid)).Ok? && env.download {
      var st1 := st.(log := st.log + [GetPost(pid)]);
      var data := RewriteFast(env.postAt(pid).value);
      DownloadAllClaimed(env, st1, CollectMedia(data));
    }
  }

  /** After the loop every listed post is settled. */
  lemma {:induction false} PostsFastSettles(env: Env, st: State, uid: string, pids: seq<string>)
    ensures forall p :: p in pids ==> SettledFast(env, PostsFast(env, st, uid, pids), uid, p)
    decreases |pids|
  {
    if pids != [] {
      var mid := PostFast(env, st, uid, pids[0]);
      var r := PostsFast(env, mid, uid, pids[1..]);
      PostsFastSettles(env, mid, uid, pids[1..]);
      PostFastSettles(env, st, uid, pids[0]);
      SettledFastStays(env, mid, r, uid, pids[0]);
      assert forall p :: p in pids ==> p == pids[0] || p in pids[1..];
    }
  }

  /** A loop over settled posts changes neither files nor claims. */
  lemma {:induction false} PostsFastOfSettled(env: Env, st: State, uid: string, pids: seq<string>)
    requires forall p :: p in pids ==> SettledFast(env, st, uid, p)
    ensures PostsFast(env, st, uid, pids).store == st.store
    ensures PostsFast(env, st, uid, pids).media == st.media
    decreases |pids|
  {
    if pids != [] {
      var mid := PostFast(env, st, uid, pids[0]);
      PostFastOfSettled(env, st, uid, pids[0]);
      forall p | p in pids[1..] ensures SettledFast(env, mid, uid, p) {
        SettledFastStays(env, st, mid, uid, p);
      }
      PostsFastOfSettled(env, mid, uid, pids[1..]);
    }
  }

  /** Running a harvested user a second time against the same archive leaves the
      output tree and the claimed media exactly as the first run left them. */
  lemma FastRerun(env: Env, st: State, uid: string)
    requires AsMap(env.profileAt(uid)).Ok? && env.writable(ProfileFile(uid))
    ensures var r1 := ProcessUserFast(env, st, uid);
            var r2 := ProcessUserFast(env, r1.state, uid);
            r2.outcome == Done && r2.state.store == r1.state.store && r2.state.media == r1.state.media
  {
    var pp := ProfileFile(uid);
    var profile := RewriteFast(env.profileAt(uid).value);
    var pids := FastPostIds(env, uid);
    var st2 := st.(log := st.log + [GetProfile(uid)], store := WriteDoc(env, st.store, pp, profile));
    var r1 := PostsFast(env, st2, uid, pids);
    assert ProcessUserFast(env, st, uid) == Step(r1, Done);
    ProcessUserFastWrites(env, st, uid);
    var again := r1.(log := r1.log + [GetProfile(uid)], store := WriteDoc(env, r1.store, pp, profile));
    assert again.store == r1.store;
    var r2 := PostsFast(env, again, uid, pids);
    assert ProcessUserFast(env, r1, uid) == Step(r2, Done);
    PostsFastSettles(env, st2, uid, pids);
    forall p | p in pids ensures SettledFast(env, again, uid, p) {
      SettledFastStays(env, r1, again, uid, p);
    }
    PostsFastOfSettled(env, again, uid, pids);
  }
}
