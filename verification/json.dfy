/** JSON values as the harvesters hold them after encoding/json decodes a document
    into `interface{}`: one tagged union. An object is a sequence of fields; its
    order stands for one possible Go map iteration order, so every statement this
    model makes about the contents of objects is independent of that order. Numbers
    are integral (see README, "Left out"). */
module Json {
  import opened Results

  datatype Value =
    | Null
    | Bool(b: bool)
    | Num(n: int)
    | Str(s: string)
    | Arr(items: seq<Value>)
    | Obj(fields: seq<Field>)

  datatype Field = Field(key: string, val: Value)

  /** `m[k]` on a decoded map: the value stored under `k`, if any. A decoded map has
      distinct keys; should a field sequence repeat a key, the first one is read. */
  function Lookup(fs: seq<Field>, k: string): (r: Option<Value>)
    ensures r.None? <==> forall i :: 0 <= i < |fs| ==> fs[i].key != k
    ensures r.Some? ==> exists i :: 0 <= i < |fs| && fs[i].key == k && fs[i].val == r.value
  {
    if fs == [] then None else if fs[0].key == k then Some(fs[0].val) else Lookup(fs[1..], k)
  }

  /** The fields of a value decoded into `map[string]interface{}`: a JSON null
      decodes to a nil map, which has no fields. */
  function Members(v: Value): seq<Field> {
    if v.Obj? then v.fields else []
  }

  /** Same containers, same keys in the same places, same array lengths, same
      non-string leaves; string leaves may differ. */
  ghost predicate SameShape(a: Value, b: Value) {
    match a
    case Str(_) => b.Str?
    case Arr(xs) =>
      && b.Arr? && |b.items| == |xs|
      && forall i :: 0 <= i < |xs| ==> SameShape(xs[i], b.items[i])
    case Obj(fs) =>
      && b.Obj? && |b.fields| == |fs|
      && forall i :: 0 <= i < |fs| ==> b.fields[i].key == fs[i].key && SameShape(fs[i].val, b.fields[i].val)
    case _ => b == a
  }

  /** Every string leaf of `v`, at any depth, satisfies `p`. */
  ghost predicate AllStrings(v: Value, p: string -> bool) {
    match v
    case Str(s) => p(s)
    case Arr(xs) => forall i :: 0 <= i < |xs| ==> AllStrings(xs[i], p)
    case Obj(fs) => forall i :: 0 <= i < |fs| ==> AllStrings(fs[i].val, p)
    case _ => true
  }

  /** A leaf property implied by a stronger one holds wherever the stronger one does. */
  lemma {:induction false} AllStringsWeaken(v: Value, p: string -> bool, q: string -> bool)
    requires forall s :: p(s) ==> q(s)
    requires AllStrings(v, p)
    ensures AllStrings(v, q)
  {
    match v
    case Str(s) =>
    case Arr(xs) =>
      forall i | 0 <= i < |xs| {
        AllStringsWeaken(xs[i], p, q);
      }
    case Obj(fs) =>
      forall i | 0 <= i < |fs| {
        AllStringsWeaken(fs[i].val, p, q);
      }
    case _ =>
  }

  /** The one generic recursive visitor: `f` applied to every string leaf, every
      container rebuilt around the visited children. */
  function MapStrings(v: Value, f: string -> string): (r: Value)
    ensures SameShape(v, r)
  {
    match v
    case Str(s) => Str(f(s))
    case Arr(xs) => Arr(seq(|xs|, i requires 0 <= i < |xs| => MapStrings(xs[i], f)))
    case Obj(fs) => Obj(seq(|fs|, i requires 0 <= i < |fs| => Field(fs[i].key, MapStrings(fs[i].val, f))))
    case _ => v
  }

  /** A visitor whose result always satisfies `p` leaves only strings satisfying `p`. */
  lemma {:induction false} MapStringsEstablishes(v: Value, f: string -> string, p: string -> bool)
    requires forall s :: p(f(s))
    ensures AllStrings(MapStrings(v, f), p)
  {
    match v
    case Str(s) =>
    case Arr(xs) =>
      forall i | 0 <= i < |xs| {
        MapStringsEstablishes(xs[i], f, p);
      }
    case Obj(fs) =>
      forall i | 0 <= i < |fs| {
        MapStringsEstablishes(fs[i].val, f, p);
      }
    case _ =>
  }

  /** A visitor that fixes every string satisfying `p` returns a document whose
      string leaves all satisfy `p` unchanged. */
  lemma {:induction false} MapStringsIdentity(v: Value, f: string -> string, p: string -> bool)
    requires forall s :: p(s) ==> f(s) == s
    requires AllStrings(v, p)
    ensures MapStrings(v, f) == v
  {
    match v
    case Str(s) =>
    case Arr(xs) =>
      forall i | 0 <= i < |xs| {
        MapStringsIdentity(xs[i], f, p);
      }
      assert MapStrings(v, f).items == xs;
    case Obj(fs) =>
      forall i | 0 <= i < |fs| {
        MapStringsIdentity(fs[i].val, f, p);
      }
      assert MapStrings(v, f).fields == fs;
    case _ =>
  }

  /** Visiting twice with an idempotent string map is visiting once. */
  lemma {:induction false} MapStringsIdempotent(v: Value, f: string -> string)
    requires forall s :: f(f(s)) == f(s)
    ensures MapStrings(MapStrings(v, f), f) == MapStrings(v, f)
  {
    var once := MapStrings(v, f);
    match v
    case Str(s) =>
    case Arr(xs) =>
      forall i | 0 <= i < |xs| {
        MapStringsIdempotent(xs[i], f);
      }
      assert MapStrings(once, f).items == once.items;
    case Obj(fs) =>
      forall i | 0 <= i < |fs| {
        MapStringsIdempotent(fs[i].val, f);
      }
      assert MapStrings(once, f).fields == once.fields;
    case _ =>
  }

  /** How many string leaves of `v` are exactly `u`, wherever they sit. */
  function LeafCount(v: Value, u: string): nat {
    match v
    case Str(s) => if s == u then 1 else 0
    case Arr(xs) => ItemsLeafCount(xs, u)
    case Obj(fs) => FieldsLeafCount(fs, u)
    case _ => 0
  }

  function ItemsLeafCount(xs: seq<Value>, u: string): nat {
    if xs == [] then 0 else LeafCount(xs[0], u) + ItemsLeafCount(xs[1..], u)
  }

  function FieldsLeafCount(fs: seq<Field>, u: string): nat {
    if fs == [] then 0 else LeafCount(fs[0].val, u) + FieldsLeafCount(fs[1..], u)
  }

  /** Somewhere inside `v` (at any depth, `v` included) an object maps key `k` to `w`. */
  ghost predicate HasField(v: Value, k: string, w: Value) {
    match v
    case Arr(xs) => exists i :: 0 <= i < |xs| && HasField(xs[i], k, w)
    case Obj(fs) =>
      exists i :: 0 <= i < |fs| && ((fs[i].key == k && fs[i].val == w) || HasField(fs[i].val, k, w))
    case _ => false
  }
}
