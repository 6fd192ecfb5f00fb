/** collectPostIDsFromProfile: the post identifiers named by a user profile, taken
    from its `posts` list when that yields any, and otherwise from every
    `postId`/`postIdStr` field found anywhere in the profile. Identifiers are
    trimmed, empty ones dropped, and each kept once, in order of first appearance.
    The two harvesters share this procedure. */
module PostIds {
  import opened Results
  import opened Seqs
  import opened Text
  import opened Json
  import opened EntityIds

  // ---------------------------------------------------------------------------
  // The accumulator: `seen` and `out`

  datatype Acc = Acc(seen: set<string>, out: seq<string>)

  const Empty := Acc({}, [])

  /** `seen` holds exactly the identifiers in `out`; they are distinct, non-empty
      and trimmed. */
  ghost predicate Valid(acc: Acc) {
    && acc.seen == Elems(acc.out)
    && Distinct(acc.out)
    && forall i :: 0 <= i < |acc.out| ==> acc.out[i] != [] && TrimmedBy(acc.out[i], IsSpace)
  }

  /** addID: trim, drop the empty identifier, drop one already seen, else record it. */
  function AddId(acc: Acc, id: string): (r: Acc)
    ensures Valid(acc) ==> Valid(r)
  {
    var t := TrimSpace(id);
    if t == "" || t in acc.seen then acc
    else
      var r := Acc(acc.seen + {t}, acc.out + [t]);
      assert Valid(acc) ==> Elems(r.out) == Elems(acc.out) + {t};
      r
  }

  /** addID applied to each candidate in turn. */
  function AddAll(acc: Acc, c: seq<string>): (r: Acc)
    ensures Valid(acc) ==> Valid(r)
    decreases |c|
  {
    if c == [] then acc else AddId(AddAll(acc, c[..|c| - 1]), c[|c| - 1])
  }

  function Trims(c: seq<string>): (r: seq<string>)
    ensures |r| == |c| && forall i :: 0 <= i < |c| ==> r[i] == TrimSpace(c[i])
  {
    seq(|c|, i requires 0 <= i < |c| => TrimSpace(c[i]))
  }

  predicate NonEmpty(s: string) {
    s != []
  }

  /** The candidates as addID sees them: trimmed, with the empty ones left out. */
  function Normalize(c: seq<string>): seq<string> {
    Filter(Trims(c), NonEmpty)
  }

  /** An identifier is kept exactly when it is some candidate, trimmed, and not empty. */
  lemma NormalizedMember(c: seq<string>, t: string)
    ensures t in KeepFirst(Normalize(c)) <==> t != "" && exists j :: 0 <= j < |c| && TrimSpace(c[j]) == t
  {
    var n := Normalize(c);
    if t in KeepFirst(n) {
      var i :| 0 <= i < |KeepFirst(n)| && KeepFirst(n)[i] == t;
      var m :| 0 <= m < |n| && n[m] == t;
      var j :| 0 <= j < |c| && Trims(c)[j] == t;
    }
    if t != "" && exists j :: 0 <= j < |c| && TrimSpace(c[j]) == t {
      var j :| 0 <= j < |c| && TrimSpace(c[j]) == t;
      assert Trims(c)[j] == t;
      var m :| 0 <= m < |n| && n[m] == t;
    }
  }

  lemma NormalizeSnoc(c: seq<string>, x: string)
    ensures var t := TrimSpace(x);
            Normalize(c + [x]) == Normalize(c) + (if t != "" then [t] else [])
  {
    var t := TrimSpace(x);
    assert Trims(c + [x]) == Trims(c) + [t] by {
      var a := Trims(c + [x]);
      var b := Trims(c) + [t];
      forall i | 0 <= i < |a| ensures a[i] == b[i] {
        if i < |c| {
          assert (c + [x])[i] == c[i];
        }
      }
    }
    assert Filter([t], NonEmpty) == if t != "" then [t] else [] by {
      assert [t][1..] == [];
    }
    FilterAppend(Trims(c), [t], NonEmpty);
  }

  /** One addID call on an accumulator that holds the first occurrences of `n`. */
  lemma AddIdKeepsFirst(a: Acc, n: seq<string>, x: string)
    requires a.out == KeepFirst(n) && a.seen == Elems(KeepFirst(n))
    ensures var t := TrimSpace(x);
            var n2 := n + (if t != "" then [t] else []);
            AddId(a, x).out == KeepFirst(n2) && AddId(a, x).seen == Elems(KeepFirst(n2))
  {
    var t := TrimSpace(x);
    var k := KeepFirst(n);
    if t == "" {
      assert AddId(a, x) == a;
      assert n + [] == n;
    } else if t in a.seen {
      assert AddId(a, x) == a;
      assert t in n;
      KeepFirstSnoc(n, t);
    } else {
      assert AddId(a, x) == Acc(a.seen + {t}, k + [t]);
      assert t !in k;
      assert t !in n;
      KeepFirstSnoc(n, t);
      assert Elems(k + [t]) == Elems(k) + {t};
    }
  }

  /** Independent of the accumulator: collecting from scratch keeps the first
      occurrence of every normalized candidate, in order. */
  lemma {:induction false} AddAllKeepsFirst(c: seq<string>)
    ensures AddAll(Empty, c).out == KeepFirst(Normalize(c))
    ensures AddAll(Empty, c).seen == Elems(KeepFirst(Normalize(c)))
    decreases |c|
  {
    if c != [] {
      var init := c[..|c| - 1];
      var x := c[|c| - 1];
      assert c == init + [x];
      AddAllKeepsFirst(init);
      NormalizeSnoc(init, x);
      AddIdKeepsFirst(AddAll(Empty, init), Normalize(init), x);
    }
  }

  // ---------------------------------------------------------------------------
  // Step 1: the `posts` list

  /** The identifier an element of `posts` names: a string as it is, a number
      rendered, an object's `postIdStr` or else numeric `postId`. A non-empty
      `postIdStr` of only white space is chosen here and then dropped by addID;
      `postId` is not consulted for it. */
  function ItemId(item: Value): (r: Option<string>)
    ensures item.Str? ==> r == Some(item.s)
    ensures item.Num? ==> r == Some(Decimal(item.n))
    ensures item.Obj? ==> r == StrOrNum(item.fields, "postIdStr", "postId")
    ensures item.Null? || item.Bool? || item.Arr? ==> r.None?
  {
    match item
    case Str(s) => Some(s)
    case Num(n) => Some(Decimal(n))
    case Obj(fs) => StrOrNum(fs, "postIdStr", "postId")
    case _ => None
  }

  function ItemIds(items: seq<Value>): (r: seq<string>)
    ensures forall i :: 0 <= i < |r| ==> exists j :: 0 <= j < |items| && ItemId(items[j]) == Some(r[i])
    ensures forall j :: 0 <= j < |items| && ItemId(items[j]).Some? ==> ItemId(items[j]).value in r
  {
    if items == [] then []
    else
      var rest := ItemIds(items[1..]);
      assert forall i :: 0 <= i < |rest| ==> exists j :: 1 <= j < |items| && ItemId(items[j]) == Some(rest[i]);
      (match ItemId(items[0]) case Some(s) => [s] case None => []) + rest
  }

  /** The candidates of two runs of items, one after the other, are those of each
      run in order. */
  lemma {:induction false} ItemIdsAppend(a: seq<Value>, b: seq<Value>)
    ensures ItemIds(a + b) == ItemIds(a) + ItemIds(b)
    decreases |a|
  {
    if a == [] {
      assert a + b == b;
    } else {
      assert (a + b)[0] == a[0];
      assert (a + b)[1..] == a[1..] + b;
      ItemIdsAppend(a[1..], b);
    }
  }

  /** One item contributes the id it names, or nothing. */
  lemma ItemIdsSingle(item: Value)
    ensures ItemIds([item]) == if ItemId(item).Some? then [ItemId(item).value] else []
  {
    assert [item][1..] == [];
  }

  /** The keys as the Vine API spells them pass the deep scan's key test. */
  lemma ExactPostIdKeys()
    ensures IsPostIdKey("postIdStr") && IsPostIdKey("postId")
  {
    assert ToLower("postIdStr") == "postidstr";
    assert ToLower("postId") == "postid";
  }

  /** An identifier an object element of `posts` names is held under one of its
      own postId-like keys, so the deep scan over the same element finds it too. */
  lemma ItemIdFoundByDeepScan(fs: seq<Field>)
    requires ItemId(Obj(fs)).Some?
    ensures FoundUnder(Obj(fs), ItemId(Obj(fs)).value)
  {
    ExactPostIdKeys();
    var k := if HasText(fs, "postIdStr") then "postIdStr" else "postId";
    var i :| 0 <= i < |fs| && fs[i].key == k && fs[i].val == Lookup(fs, k).value;
    assert HasField(Obj(fs), k, fs[i].val);
  }

  /** The candidates from `profile["posts"]`: none unless it is an array. */
  function PostsCandidates(profile: seq<Field>): seq<string> {
    match Lookup(profile, "posts")
    case Some(Arr(items)) => ItemIds(items)
    case _ => []
  }

  // ---------------------------------------------------------------------------
  // Step 2: the deep scan

  /** `strings.ToLower(k)` is "postid" or "postidstr". */
  predicate IsPostIdKey(k: string) {
    var kl := ToLower(k);
    kl == "postid" || kl == "postidstr"
  }

  /** The identifier a `postId`-like field holds: a string, or a number rendered. */
  function IdText(w: Value): Option<string> {
    match w
    case Str(s) => Some(s)
    case Num(n) => Some(Decimal(n))
    case _ => None
  }

  function KeyCandidate(f: Field): seq<string> {
    if IsPostIdKey(f.key) then (match IdText(f.val) case Some(s) => [s] case None => []) else []
  }

  /** The walk: every field in turn, its own candidate first, then the candidates
      inside its value; arrays element by element. */
  function DeepCandidates(v: Value): seq<string> {
    match v
    case Obj(fs) => Flatten(seq(|fs|, i requires 0 <= i < |fs| => KeyCandidate(fs[i]) + DeepCandidates(fs[i].val)))
    case Arr(xs) => Flatten(seq(|xs|, i requires 0 <= i < |xs| => DeepCandidates(xs[i])))
    case _ => []
  }

  /** `c` is held by some field, at any depth of `v`, whose lower-cased key is
      "postid" or "postidstr". */
  ghost predicate FoundUnder(v: Value, c: string) {
    exists k, w :: IsPostIdKey(k) && HasField(v, k, w) && IdText(w) == Some(c)
  }

  /** The walk finds exactly the identifiers held under a postId-like key anywhere. */
  lemma {:induction false} DeepCandidatesFound(v: Value, c: string)
    ensures c in DeepCandidates(v) <==> FoundUnder(v, c)
    decreases v, 1
  {
    match v
    case Obj(fs) => ObjectCandidatesFound(v, fs, c);
    case Arr(xs) => ArrayCandidatesFound(v, xs, c);
    case _ =>
  }

  lemma {:induction false} ObjectCandidatesFound(v: Value, fs: seq<Field>, c: string)
    requires v == Obj(fs)
    ensures c in DeepCandidates(v) <==> FoundUnder(v, c)
    decreases v, 0
  {
    var parts := seq(|fs|, i requires 0 <= i < |fs| => KeyCandidate(fs[i]) + DeepCandidates(fs[i].val));
    assert DeepCandidates(v) == Flatten(parts);
    FlattenMember(parts, c);
    if c in DeepCandidates(v) {
      var i :| 0 <= i < |parts| && c in parts[i];
      if c in KeyCandidate(fs[i]) {
        assert HasField(v, fs[i].key, fs[i].val);
      } else {
        DeepCandidatesFound(fs[i].val, c);
        var k, w :| IsPostIdKey(k) && HasField(fs[i].val, k, w) && IdText(w) == Some(c);
        assert HasField(v, k, w);
      }
    }
    if FoundUnder(v, c) {
      var k, w :| IsPostIdKey(k) && HasField(v, k, w) && IdText(w) == Some(c);
      var i :| 0 <= i < |fs| && ((fs[i].key == k && fs[i].val == w) || HasField(fs[i].val, k, w));
      if !(fs[i].key == k && fs[i].val == w) {
        DeepCandidatesFound(fs[i].val, c);
      }
      assert c in parts[i];
    }
  }

  lemma {:induction false} ArrayCandidatesFound(v: Value, xs: seq<Value>, c: string)
    requires v == Arr(xs)
    ensures c in DeepCandidates(v) <==> FoundUnder(v, c)
    decreases v, 0
  {
    var parts := seq(|xs|, i requires 0 <= i < |xs| => DeepCandidates(xs[i]));
    assert DeepCandidates(v) == Flatten(parts);
    FlattenMember(parts, c);
    if c in DeepCandidates(v) {
      var i :| 0 <= i < |parts| && c in parts[i];
      DeepCandidatesFound(xs[i], c);
      var k, w :| IsPostIdKey(k) && HasField(xs[i], k, w) && IdText(w) == Some(c);
      assert HasField(v, k, w);
    }
    if FoundUnder(v, c) {
      var k, w :| IsPostIdKey(k) && HasField(v, k, w) && IdText(w) == Some(c);
      var i :| 0 <= i < |xs| && HasField(xs[i], k, w);
      DeepCandidatesFound(xs[i], c);
      assert c in parts[i];
    }
  }

  // ---------------------------------------------------------------------------
  // The whole procedure

  function CollectPostIds(profile: seq<Field>): seq<string> {
    var fromPosts := AddAll(Empty, PostsCandidates(profile));
    if |fromPosts.out| > 0 then fromPosts.out
    else AddAll(fromPosts, DeepCandidates(Obj(profile))).out
  }

  /** The result is the first-occurrence list of the normalized `posts`
      candidates when there is any, and of the deep-scan candidates otherwise; it is
      duplicate-free and every identifier is non-empty and trimmed. */
  lemma CollectPostIdsSpec(profile: seq<Field>)
    ensures var p := KeepFirst(Normalize(PostsCandidates(profile)));
            CollectPostIds(profile) == if p != [] then p else KeepFirst(Normalize(DeepCandidates(Obj(profile))))
    ensures var r := CollectPostIds(profile);
            Distinct(r) && forall i :: 0 <= i < |r| ==> r[i] != "" && TrimmedBy(r[i], IsSpace)
  {
    AddAllKeepsFirst(PostsCandidates(profile));
    AddAllKeepsFirst(DeepCandidates(Obj(profile)));
    assert Valid(Empty);
  }

  /** An identifier the `posts` list yields is one some element names. */
  lemma ItemIdsSound(items: seq<Value>, m: nat)
    requires m < |ItemIds(items)|
    ensures exists j :: 0 <= j < |items| && ItemId(items[j]) == Some(ItemIds(items)[m])
  {
  }

  /** Every identifier an element names is yielded. */
  lemma ItemIdsComplete(items: seq<Value>, j: nat)
    requires j < |items| && ItemId(items[j]).Some?
    ensures exists m :: 0 <= m < |ItemIds(items)| && ItemIds(items)[m] == ItemId(items[j]).value
  {
    var r := ItemIds(items);
    var m :| 0 <= m < |r| && r[m] == ItemId(items[j]).value;
  }

  lemma ItemIdsMember(items: seq<Value>, t: string)
    ensures (t != "" && exists m :: 0 <= m < |ItemIds(items)| && TrimSpace(ItemIds(items)[m]) == t) <==>
            (t != "" && exists j :: 0 <= j < |items| && ItemId(items[j]).Some? && TrimSpace(ItemId(items[j]).value) == t)
  {
    var c := ItemIds(items);
    if t != "" && exists m :: 0 <= m < |c| && TrimSpace(c[m]) == t {
      var m :| 0 <= m < |c| && TrimSpace(c[m]) == t;
      ItemIdsSound(items, m);
    }
    if t != "" && exists j :: 0 <= j < |items| && ItemId(items[j]).Some? && TrimSpace(ItemId(items[j]).value) == t {
      var j :| 0 <= j < |items| && ItemId(items[j]).Some? && TrimSpace(ItemId(items[j]).value) == t;
      ItemIdsComplete(items, j);
    }
  }

  /** The identifiers kept from a `posts` list are exactly the trimmed, non-empty
      identifiers its elements name. */
  lemma PostsListMember(items: seq<Value>, t: string)
    ensures t in KeepFirst(Normalize(ItemIds(items))) <==>
            t != "" && exists j :: 0 <= j < |items| && ItemId(items[j]).Some? && TrimSpace(ItemId(items[j]).value) == t
  {
    ItemIdsMember(items, t);
    NormalizedMember(ItemIds(items), t);
  }

  /** When the `posts` list names any usable identifier, the result is exactly the
      trimmed identifiers it names. */
  lemma FromPosts(profile: seq<Field>, items: seq<Value>, t: string)
    requires Lookup(profile, "posts") == Some(Arr(items))
    requires exists j :: 0 <= j < |items| && ItemId(items[j]).Some? && TrimSpace(ItemId(items[j]).value) != ""
    ensures t in CollectPostIds(profile) <==>
            t != "" && exists j :: 0 <= j < |items| && ItemId(items[j]).Some? && TrimSpace(ItemId(items[j]).value) == t
  {
    PostsListUsed(profile, items);
    PostsListMember(items, t);
  }

  /** A `posts` list that names a usable identifier decides the result alone. */
  lemma PostsListUsed(profile: seq<Field>, items: seq<Value>)
    requires Lookup(profile, "posts") == Some(Arr(items))
    requires exists j :: 0 <= j < |items| && ItemId(items[j]).Some? && TrimSpace(ItemId(items[j]).value) != ""
    ensures CollectPostIds(profile) == KeepFirst(Normalize(ItemIds(items)))
  {
    var p := KeepFirst(Normalize(ItemIds(items)));
    assert PostsCandidates(profile) == ItemIds(items);
    assert p != [] by {
      var j :| 0 <= j < |items| && ItemId(items[j]).Some? && TrimSpace(ItemId(items[j]).value) != "";
      PostsListMember(items, TrimSpace(ItemId(items[j]).value));
    }
    CollectPostIdsSpec(profile);
  }

  /** When the `posts` list names nothing usable, the result is exactly the trimmed
      identifiers held under a postId-like key anywhere in the profile. */
  lemma FromDeepScan(profile: seq<Field>, t: string)
    requires Normalize(PostsCandidates(profile)) == []
    ensures t in CollectPostIds(profile) <==>
            t != "" && exists c :: TrimSpace(c) == t && FoundUnder(Obj(profile), c)
  {
    CollectPostIdsSpec(profile);
    var d := DeepCandidates(Obj(profile));
    NormalizedMember(d, t);
    if t in CollectPostIds(profile) {
      var m :| 0 <= m < |d| && TrimSpace(d[m]) == t;
      DeepCandidatesFound(Obj(profile), d[m]);
    }
    if t != "" && exists c :: TrimSpace(c) == t && FoundUnder(Obj(profile), c) {
      var c :| TrimSpace(c) == t && FoundUnder(Obj(profile), c);
      DeepCandidatesFound(Obj(profile), c);
      var m :| 0 <= m < |d| && d[m] == c;
    }
  }
}
