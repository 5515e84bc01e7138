/** JSON values as Python sees them after parsing: objects keep the order of their keys, and keys are distinct. */
module JsonTree {
  import opened Outcomes

  datatype Field = Field(key: string, value: Json)

  datatype Json =
    | JNull
    | JBool(b: bool)
    | JInt(n: int)
    | JReal(r: real)
    | JStr(s: string)
    | JList(items: seq<Json>)
    | JObj(fields: seq<Field>)

  datatype Segment = Key(key: string) | Index(index: nat)

  type Path = seq<Segment>

  /** Lists and objects alike have `Count` children. */
  function Count(v: Json): nat {
    match v
    case JList(items) => |items|
    case JObj(fields) => |fields|
    case _ => 0
  }

  function Kid(v: Json, i: nat): (k: Json)
    requires i < Count(v)
    ensures k < v
  {
    match v
    case JList(items) => items[i]
    case JObj(fields) => fields[i].value
  }

  function Kids(v: Json): (kids: seq<Json>)
    ensures |kids| == Count(v) && forall i :: 0 <= i < |kids| ==> kids[i] == Kid(v, i)
  {
    seq(Count(v), i requires 0 <= i < Count(v) => Kid(v, i))
  }

  /** The path segment that leads to child `i`. */
  function Seg(v: Json, i: nat): Segment
    requires i < Count(v)
  {
    match v
    case JList(items) => Index(i)
    case JObj(fields) => Key(fields[i].key)
  }

  /** The same list or object with other children. */
  function With(v: Json, kids: seq<Json>): (w: Json)
    requires |kids| == Count(v)
    ensures Count(w) == Count(v) && (forall i :: 0 <= i < Count(v) ==> Kid(w, i) == kids[i] && Seg(w, i) == Seg(v, i))
  {
    match v
    case JList(items) => JList(kids)
    case JObj(fields) => JObj(seq(|fields|, i requires 0 <= i < |fields| => Field(fields[i].key, kids[i])))
    case _ => v
  }

  lemma WithKids(v: Json)
    ensures With(v, Kids(v)) == v
  {
    if v.JObj? {
      assert With(v, Kids(v)).fields == v.fields;
    }
  }

  lemma WithTwice(v: Json, a: seq<Json>, b: seq<Json>)
    requires |a| == |b| == Count(v)
    ensures With(With(v, a), b) == With(v, b)
  {
    if v.JObj? {
      assert With(With(v, a), b).fields == With(v, b).fields;
    }
  }

  lemma KidsOfWith(v: Json, kids: seq<Json>)
    requires |kids| == Count(v)
    ensures Kids(With(v, kids)) == kids
  {
  }

  predicate DistinctFields(v: Json) {
    v.JObj? ==> forall i, j :: 0 <= i < j < |v.fields| ==> v.fields[i].key != v.fields[j].key
  }

  /** Keys are distinct in every object. */
  predicate WellFormed(v: Json)
    decreases v
  {
    DistinctFields(v) && forall i | 0 <= i < Count(v) :: WellFormed(Kid(v, i))
  }

  lemma SegsDistinct(v: Json, i: nat, j: nat)
    requires DistinctFields(v) && i < Count(v) && j < Count(v) && Seg(v, i) == Seg(v, j)
    ensures i == j
  {
  }

  /** The child a segment leads to, searching from `from`. */
  function ChildFrom(v: Json, s: Segment, from: nat): (i: Option<nat>)
    requires from <= Count(v)
    ensures i.Some? ==> from <= i.value < Count(v) && Seg(v, i.value) == s
    ensures i.None? ==> forall j :: from <= j < Count(v) ==> Seg(v, j) != s
    decreases Count(v) - from
  {
    if from == Count(v) then None else if Seg(v, from) == s then Some(from) else ChildFrom(v, s, from + 1)
  }

  function Child(v: Json, s: Segment): Option<nat> { ChildFrom(v, s, 0) }

  lemma ChildIs(v: Json, i: nat)
    requires DistinctFields(v) && i < Count(v)
    ensures Child(v, Seg(v, i)) == Some(i)
  {
    SegsDistinct(v, i, Child(v, Seg(v, i)).value);
  }

  /** `object.get(key)`; absent in anything but an object. */
  function Get(v: Json, key: string): Option<Json> {
    if !v.JObj? then None
    else match Child(v, Key(key)) case None => None case Some(i) => Some(Kid(v, i))
  }

  /** Follow a path. */
  function Resolve(v: Json, path: Path): Option<Json>
    decreases |path|
  {
    if path == [] then Some(v)
    else match Child(v, path[0]) case None => None case Some(i) => Resolve(Kid(v, i), path[1..])
  }

  /** Follow a path and put a string there. */
  function SetAt(v: Json, path: Path, text: string): Json
    decreases |path|
  {
    if path == [] then JStr(text)
    else
      match Child(v, path[0])
      case None => v
      case Some(i) => With(v, Kids(v)[i := SetAt(Kid(v, i), path[1..], text)])
  }

  predicate IsLeaf(v: Json) { !v.JList? && !v.JObj? }

  /** Same constructor, and for objects the same keys in the same order. */
  predicate SameKind(v: Json, w: Json) {
    match v
    case JNull => w.JNull?
    case JBool(_) => w.JBool?
    case JInt(_) => w.JInt?
    case JReal(_) => w.JReal?
    case JStr(_) => w.JStr?
    case JList(items) => w.JList? && |w.items| == |items|
    case JObj(fields) =>
      w.JObj? && |w.fields| == |fields| && forall i :: 0 <= i < |fields| ==> w.fields[i].key == fields[i].key
  }
}
