/** How the harvesters name users and posts: the string-or-number fallback read from
    fetched records, and the fast harvester's loading of its user list. */
module EntityIds {
  import opened Results
  import opened Text
  import opened Json

  // ---------------------------------------------------------------------------
  // Identifiers read from a record

  /** `m[k]` is a non-empty JSON string. */
  predicate HasText(fs: seq<Field>, k: string) {
    var v := Lookup(fs, k);
    v.Some? && v.value.Str? && v.value.s != ""
  }

  /** `m[k]` is a JSON number. */
  predicate HasNumber(fs: seq<Field>, k: string) {
    var v := Lookup(fs, k);
    v.Some? && v.value.Num?
  }

  /** The identifier stored under `strKey` as a non-empty string, else the number
      stored under `numKey` written out as "%.0f" writes it, else nothing. */
  function StrOrNum(fs: seq<Field>, strKey: string, numKey: string): (r: Option<string>)
    ensures r.None? <==> !HasText(fs, strKey) && !HasNumber(fs, numKey)
    ensures r.Some? ==> r.value != [] && (HasText(fs, strKey) || NoSpace(r.value))
    ensures HasText(fs, strKey) ==> r == Some(Lookup(fs, strKey).value.s)
    ensures !HasText(fs, strKey) && HasNumber(fs, numKey) ==> r == Some(Decimal(Lookup(fs, numKey).value.n))
  {
    if HasText(fs, strKey) then Some(Lookup(fs, strKey).value.s)
    else if HasNumber(fs, numKey) then Some(Decimal(Lookup(fs, numKey).value.n))
    else None
  }

  /** When the identifier comes from the number, it reads back as that number. */
  lemma NumericIdReadsBack(fs: seq<Field>, strKey: string, numKey: string)
    requires !HasText(fs, strKey) && HasNumber(fs, numKey)
    ensures ParseDecimal(StrOrNum(fs, strKey, numKey).value) == Some(Lookup(fs, numKey).value.n)
  {
    DecimalRoundTrip(Lookup(fs, numKey).value.n);
  }

  /** Two records whose numeric identifiers are rendered alike hold the same number. */
  lemma NumericIdsDistinguish(fs: seq<Field>, gs: seq<Field>, strKey: string, numKey: string)
    requires !HasText(fs, strKey) && HasNumber(fs, numKey)
    requires !HasText(gs, strKey) && HasNumber(gs, numKey)
    requires StrOrNum(fs, strKey, numKey) == StrOrNum(gs, strKey, numKey)
    ensures Lookup(fs, numKey).value.n == Lookup(gs, numKey).value.n
  {
    DecimalInjective(Lookup(fs, numKey).value.n, Lookup(gs, numKey).value.n);
  }

  /** The owner of a post: `userIdStr`, else numeric `userId`, else "" (no owner). */
  function UserIdOf(post: seq<Field>): (r: string)
    ensures r == "" <==> !HasText(post, "userIdStr") && !HasNumber(post, "userId")
    ensures HasText(post, "userIdStr") ==> r == Lookup(post, "userIdStr").value.s
    ensures !HasText(post, "userIdStr") && HasNumber(post, "userId") ==> r == Decimal(Lookup(post, "userId").value.n)
  {
    StrOrNum(post, "userIdStr", "userId").GetOr("")
  }

  /** The name a post is saved under: `postIdStr`, else numeric `postId`, else the
      identifier it was requested by. */
  function PostIdOf(post: seq<Field>, requested: string): (r: string)
    ensures HasText(post, "postIdStr") ==> r == Lookup(post, "postIdStr").value.s
    ensures !HasText(post, "postIdStr") && HasNumber(post, "postId") ==> r == Decimal(Lookup(post, "postId").value.n)
    ensures !HasText(post, "postIdStr") && !HasNumber(post, "postId") ==> r == requested
    ensures requested != "" ==> r != ""
  {
    StrOrNum(post, "postIdStr", "postId").GetOr(requested)
  }

  // ---------------------------------------------------------------------------
  // loadUserIDs of the fast harvester

  /** What the user-list file holds: unreadable, not JSON, or a JSON document. */
  datatype Source = Unreadable | Malformed | Parsed(doc: Value)

  datatype LoadError = ReadFailed

  /** The outcome of json.Unmarshal into a slice: the elements decoded (an element of
      the wrong type is left at its zero value, as the decoder does) and whether the
      decode reported no error. */
  datatype Partial<T> = Partial(items: seq<T>, ok: bool)

  /** json.Unmarshal into []string. */
  function DecodeStrings(doc: Value): (d: Partial<string>)
    ensures d.ok <==> doc.Null? || (doc.Arr? && forall i :: 0 <= i < |doc.items| ==> doc.items[i].Str? || doc.items[i].Null?)
    ensures doc.Arr? ==> |d.items| == |doc.items|
    ensures doc.Arr? ==> forall i :: 0 <= i < |doc.items| && doc.items[i].Str? ==> d.items[i] == doc.items[i].s
    ensures doc.Arr? ==> forall i :: 0 <= i < |doc.items| && !doc.items[i].Str? ==> d.items[i] == ""
    ensures !doc.Arr? ==> d.items == []
  {
    match doc
    case Arr(xs) =>
      Partial(seq(|xs|, i requires 0 <= i < |xs| => if xs[i].Str? then xs[i].s else ""),
              forall i :: 0 <= i < |xs| ==> xs[i].Str? || xs[i].Null?)
    case Null => Partial([], true)
    case _ => Partial([], false)
  }

  /** json.Unmarshal into []map[string]interface{}; a null element is a nil map. */
  function DecodeObjects(doc: Value): (d: Partial<seq<Field>>)
    ensures d.ok <==> doc.Null? || (doc.Arr? && forall i :: 0 <= i < |doc.items| ==> doc.items[i].Obj? || doc.items[i].Null?)
    ensures doc.Arr? ==> |d.items| == |doc.items|
    ensures doc.Arr? ==> forall i :: 0 <= i < |doc.items| ==> d.items[i] == Members(doc.items[i])
    ensures !doc.Arr? ==> d.items == []
  {
    match doc
    case Arr(xs) =>
      Partial(seq(|xs|, i requires 0 <= i < |xs| => Members(xs[i])),
              forall i :: 0 <= i < |xs| ==> xs[i].Obj? || xs[i].Null?)
    case Null => Partial([], true)
    case _ => Partial([], false)
  }

  /** Which documents json.Unmarshal into []string reads as a given list without
      error: null for the empty list, or an array with one element per entry that
      is that string, or null standing for "". */
  lemma DecodeStringsExact(doc: Value, list: seq<string>)
    ensures DecodeStrings(doc) == Partial(list, true) <==>
              (doc.Null? && list == []) ||
              (doc.Arr? && |doc.items| == |list| &&
               forall i :: 0 <= i < |list| ==> doc.items[i] == Str(list[i]) || (doc.items[i].Null? && list[i] == ""))
  {
    var d := DecodeStrings(doc);
    if doc.Arr? && |doc.items| == |list| &&
       forall i :: 0 <= i < |list| ==> doc.items[i] == Str(list[i]) || (doc.items[i].Null? && list[i] == "") {
      assert d.items == list;
    }
  }

  /** Which documents json.Unmarshal into []map reads as given member lists without
      error: null for none, or an array with one object or null (a nil map) per
      entry. */
  lemma DecodeObjectsExact(doc: Value, objs: seq<seq<Field>>)
    ensures DecodeObjects(doc) == Partial(objs, true) <==>
              (doc.Null? && objs == []) ||
              (doc.Arr? && |doc.items| == |objs| &&
               forall i :: 0 <= i < |objs| ==> doc.items[i] == Obj(objs[i]) || (doc.items[i].Null? && objs[i] == []))
  {
    var d := DecodeObjects(doc);
    if doc.Arr? && |doc.items| == |objs| &&
       forall i :: 0 <= i < |objs| ==> doc.items[i] == Obj(objs[i]) || (doc.items[i].Null? && objs[i] == []) {
      assert d.items == objs;
    }
  }

  /** The two readings of loadUserIDs both accept a document only when it holds no
      user at all: null, or an array of nulls. */
  lemma DecodersOverlap(doc: Value)
    ensures DecodeStrings(doc).ok && DecodeObjects(doc).ok <==>
              doc.Null? || (doc.Arr? && forall i :: 0 <= i < |doc.items| ==> doc.items[i].Null?)
  {
  }

  /** The user listed by one object of the fallback format: a non-empty string
      `userIdStr`, else a non-empty string `userId`. A numeric `userId` is not read. */
  function ListedUserId(obj: seq<Field>): Option<string> {
    if HasText(obj, "userIdStr") then Some(Lookup(obj, "userIdStr").value.s)
    else if HasText(obj, "userId") then Some(Lookup(obj, "userId").value.s)
    else None
  }

  /** The users listed by a sequence of objects, in order. */
  function ObjectIds(objs: seq<seq<Field>>): (r: seq<string>)
    ensures |r| <= |objs|
    ensures forall i :: 0 <= i < |r| ==> r[i] != ""
    ensures forall i :: 0 <= i < |r| ==> exists j :: 0 <= j < |objs| && ListedUserId(objs[j]) == Some(r[i])
    ensures forall j :: 0 <= j < |objs| && ListedUserId(objs[j]).Some? ==> ListedUserId(objs[j]).value in r
  {
    if objs == [] then []
    else
      var head := match ListedUserId(objs[0]) case Some(u) => [u] case None => [];
      var rest := ObjectIds(objs[1..]);
      assert forall i :: 0 <= i < |rest| ==> exists j :: 1 <= j < |objs| && ListedUserId(objs[j]) == Some(rest[i]);
      head + rest
  }

  /** The ids of two runs of objects, one after the other, are the ids of each run
      in order. */
  lemma {:induction false} ObjectIdsAppend(a: seq<seq<Field>>, b: seq<seq<Field>>)
    ensures ObjectIds(a + b) == ObjectIds(a) + ObjectIds(b)
    decreases |a|
  {
    if a == [] {
      assert a + b == b;
    } else {
      assert (a + b)[0] == a[0];
      assert (a + b)[1..] == a[1..] + b;
      ObjectIdsAppend(a[1..], b);
    }
  }

  /** One object contributes the user it names, or nothing. */
  lemma ObjectIdsSingle(obj: seq<Field>)
    ensures ObjectIds([obj]) == if ListedUserId(obj).Some? then [ListedUserId(obj).value] else []
  {
    assert [obj][1..] == [];
  }

  /** loadUserIDs as written: the fallback appends to the slice left behind by the
      failed first decode, which holds one "" per element of an array of objects. */
  function LoadUserIdsAsWritten(src: Source): Result<seq<string>, LoadError> {
    match src
    case Unreadable => Err(ReadFailed)
    case Malformed => Ok([])
    case Parsed(doc) =>
      var d := DecodeStrings(doc);
      if d.ok && |d.items| > 0 then Ok(d.items)
      else
        var o := DecodeObjects(doc);
        if o.ok && |o.items| > 0 then Ok(d.items + ObjectIds(o.items)) else Ok(d.items)
  }

  /** loadUserIDs as intended: a non-empty array of strings is the list; otherwise a
      non-empty array of objects lists the users it names; otherwise there are none. */
  function LoadUserIds(src: Source): Result<seq<string>, LoadError> {
    match src
    case Unreadable => Err(ReadFailed)
    case Malformed => Ok([])
    case Parsed(doc) =>
      var d := DecodeStrings(doc);
      if d.ok && |d.items| > 0 then Ok(d.items)
      else
        var o := DecodeObjects(doc);
        if o.ok && |o.items| > 0 then Ok(ObjectIds(o.items)) else Ok([])
  }

  /** A list of strings is taken verbatim (null entries read as ""), by both versions. */
  lemma LoadStringList(xs: seq<Value>)
    requires |xs| > 0 && forall i :: 0 <= i < |xs| ==> xs[i].Str? || xs[i].Null?
    ensures LoadUserIds(Parsed(Arr(xs))) == LoadUserIdsAsWritten(Parsed(Arr(xs)))
    ensures var r := LoadUserIds(Parsed(Arr(xs))).value;
            |r| == |xs| && forall i :: 0 <= i < |xs| ==> r[i] == (if xs[i].Str? then xs[i].s else "")
  {
  }

  /** As written, an array of objects yields one "" per object ahead of the users it
      names. */
  lemma LoadObjectsAsWrittenPads(xs: seq<Value>)
    requires |xs| > 0 && forall i :: 0 <= i < |xs| ==> xs[i].Obj?
    ensures var r := LoadUserIdsAsWritten(Parsed(Arr(xs)));
            r.Ok? && |r.value| >= |xs| && forall i :: 0 <= i < |xs| ==> r.value[i] == ""
  {
    assert !xs[0].Str? && !xs[0].Null?;
  }

  /** The smallest file that shows it: one object naming user "7" loads as ["", "7"]. */
  lemma LoadObjectsAsWrittenExample()
    ensures LoadUserIdsAsWritten(Parsed(Arr([Obj([Field("userIdStr", Str("7"))])]))) == Ok(["", "7"])
  {
    var obj := [Field("userIdStr", Str("7"))];
    var doc := Arr([Obj(obj)]);
    assert Lookup(obj, "userIdStr") == Some(Str("7"));
    assert ListedUserId(obj) == Some("7");
    assert ObjectIds([obj]) == ["7"] + ObjectIds([]);
    assert DecodeStrings(doc).items == [""];
    assert DecodeObjects(doc).items == [obj];
    assert !DecodeStrings(doc).ok && DecodeObjects(doc).ok;
    assert [""] + ["7"] == ["", "7"];
    assert |DecodeStrings(doc).items| > 0;
    assert LoadUserIdsAsWritten(Parsed(doc)) == Ok(DecodeStrings(doc).items + ObjectIds(DecodeObjects(doc).items));
    assert ObjectIds([obj]) == ["7"];
    assert DecodeStrings(doc).items + ObjectIds(DecodeObjects(doc).items) == ["", "7"];
    assert LoadUserIdsAsWritten(Parsed(doc)) == Ok(["", "7"]);
  }

  /** An array of objects, some of them possibly null (a nil map), that is not a
      list of strings: at least one element is an object. */
  predicate ObjectList(xs: seq<Value>) {
    (forall i :: 0 <= i < |xs| ==> xs[i].Obj? || xs[i].Null?) && exists i :: 0 <= i < |xs| && xs[i].Obj?
  }

  /** The member lists of the elements of an array, in order. */
  function MemberLists(xs: seq<Value>): (r: seq<seq<Field>>)
    ensures |r| == |xs| && forall j :: 0 <= j < |xs| ==> r[j] == Members(xs[j])
  {
    seq(|xs|, j requires 0 <= j < |xs| => Members(xs[j]))
  }

  /** The loaded list of an object list is the ids of its member lists. */
  lemma LoadObjectsExact(xs: seq<Value>)
    requires ObjectList(xs)
    ensures LoadUserIds(Parsed(Arr(xs))) == Ok(ObjectIds(MemberLists(xs)))
  {
    var k :| 0 <= k < |xs| && xs[k].Obj?;
    assert !DecodeStrings(Arr(xs)).ok;
    assert DecodeObjects(Arr(xs)).items == MemberLists(xs);
  }

  /** As intended, an array of objects yields exactly the users they name, one per
      naming object, in the order of the array: the ids of the elements' member
      lists, each non-empty and from its object, and every named user included. */
  lemma LoadObjectsFixed(xs: seq<Value>)
    requires ObjectList(xs)
    ensures var r := LoadUserIds(Parsed(Arr(xs)));
            && r.Ok? && r.value == ObjectIds(MemberLists(xs))
            && |r.value| <= |xs|
            && (forall i :: 0 <= i < |r.value| ==> r.value[i] != "")
            && (forall i :: 0 <= i < |r.value| ==> exists j :: 0 <= j < |xs| && ListedUserId(Members(xs[j])) == Some(r.value[i]))
            && (forall j :: 0 <= j < |xs| && ListedUserId(Members(xs[j])).Some? ==> ListedUserId(Members(xs[j])).value in r.value)
  {
    LoadObjectsExact(xs);
  }

  /** Loading two object lists one after the other yields the users of the first
      list followed by those of the second. */
  lemma LoadObjectsConcat(xs: seq<Value>, ys: seq<Value>)
    requires ObjectList(xs) && ObjectList(ys)
    ensures LoadUserIds(Parsed(Arr(xs + ys))).Ok?
    ensures LoadUserIds(Parsed(Arr(xs + ys))).value ==
              LoadUserIds(Parsed(Arr(xs))).value + LoadUserIds(Parsed(Arr(ys))).value
  {
    ObjectListAppend(xs, ys);
    LoadObjectsExact(xs);
    LoadObjectsExact(ys);
    LoadObjectsExact(xs + ys);
    MemberListsAppend(xs, ys);
    ObjectIdsAppend(MemberLists(xs), MemberLists(ys));
  }

  lemma ObjectListAppend(xs: seq<Value>, ys: seq<Value>)
    requires ObjectList(xs) && ObjectList(ys)
    ensures ObjectList(xs + ys)
  {
    var k :| 0 <= k < |xs| && xs[k].Obj?;
    assert (xs + ys)[k] == xs[k];
  }

  lemma MemberListsAppend(xs: seq<Value>, ys: seq<Value>)
    ensures MemberLists(xs + ys) == MemberLists(xs) + MemberLists(ys)
  {
  }

  /** A list of one object loads as the user it names, or as no user. */
  lemma LoadObjectSingle(fs: seq<Field>)
    ensures LoadUserIds(Parsed(Arr([Obj(fs)]))) ==
              Ok(if ListedUserId(fs).Some? then [ListedUserId(fs).value] else [])
  {
    assert ObjectList([Obj(fs)]) by {
      assert [Obj(fs)][0].Obj?;
    }
    LoadObjectsExact([Obj(fs)]);
    assert MemberLists([Obj(fs)]) == [fs];
    ObjectIdsSingle(fs);
  }

  /** A file that is neither a list of strings nor a list of objects lists no users. */
  lemma LoadOtherwiseEmpty(doc: Value)
    requires !doc.Arr?
    ensures LoadUserIds(Parsed(doc)) == Ok([]) && LoadUserIdsAsWritten(Parsed(doc)) == Ok([])
  {
  }
}
