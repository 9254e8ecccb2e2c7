/** Python values as `json.loads` builds them from a Sefaria API response,
    and the few Python operations the importers apply to them: `dict.get`,
    `len`, indexing with a non-negative integer, iteration, `isinstance(x,
    list)` and truthiness. An operation Python would reject with an exception
    (`TypeError`, `IndexError`, `KeyError`, `AttributeError`) yields `None`. */
module PyJson {
  import opened PyStr

  /** Numbers are integers; an object keeps its members in document order,
      one member per key as `json.loads` leaves it. */
  datatype Json =
    | JNull
    | JBool(b: bool)
    | JInt(n: int)
    | JStr(s: string)
    | JList(items: seq<Json>)
    | JDict(members: seq<(string, Json)>)

  /** `bool(x)` */
  predicate Truthy(j: Json) {
    match j
    case JNull => false
    case JBool(b) => b
    case JInt(n) => n != 0
    case JStr(s) => s != []
    case JList(items) => items != []
    case JDict(members) => members != []
  }

  /** The value stored under `key` in a member list, if any. */
  function Lookup(members: seq<(string, Json)>, key: string): (r: Option<Json>)
    ensures r.None? <==> forall k :: 0 <= k < |members| ==> members[k].0 != key
    ensures r.Some? ==> exists k :: 0 <= k < |members| && members[k] == (key, r.value)
    decreases |members|
  {
    if members == [] then None
    else if members[0].0 == key then Some(members[0].1)
    else
      var r := Lookup(members[1..], key);
      assert forall k :: 1 <= k < |members| ==> members[1..][k - 1] == members[k];
      r
  }

  /** `data.get(key, default)`: `None` when `data` is not a dict. */
  function Get(data: Json, key: string, default: Json): (r: Option<Json>)
    ensures r.None? <==> !data.JDict?
    ensures data.JDict? && (forall k :: 0 <= k < |data.members| ==> data.members[k].0 != key) ==> r == Some(default)
  {
    match data
    case JDict(members) =>
      (match Lookup(members, key)
       case Some(v) => Some(v)
       case None => Some(default))
    case _ => None
  }

  /** `len(x)` */
  function Len(j: Json): (r: Option<nat>)
    ensures r.Some? <==> j.JStr? || j.JList? || j.JDict?
  {
    match j
    case JStr(s) => Some(|s|)
    case JList(items) => Some(|items|)
    case JDict(members) => Some(|members|)
    case _ => None
  }

  /** `x[i]` for `0 <= i`: a one-character string for a string, an element
      for a list; a dict has no integer keys. */
  function Index(j: Json, i: nat): (r: Option<Json>)
    ensures r.Some? <==> (j.JStr? && i < |j.s|) || (j.JList? && i < |j.items|)
    ensures j.JList? && i < |j.items| ==> r == Some(j.items[i])
  {
    match j
    case JStr(s) => if i < |s| then Some(JStr([s[i]])) else None
    case JList(items) => if i < |items| then Some(items[i]) else None
    case _ => None
  }

  /** `list(x)`: the characters of a string, the elements of a list, the keys
      of a dict. */
  function Iter(j: Json): (r: Option<seq<Json>>)
    ensures r.Some? <==> j.JStr? || j.JList? || j.JDict?
    ensures r.Some? ==> Len(j) == Some(|r.value|)
    ensures j.JList? ==> r == Some(j.items)
  {
    match j
    case JStr(s) => Some(seq(|s|, i requires 0 <= i < |s| => JStr([s[i]])))
    case JList(items) => Some(items)
    case JDict(members) => Some(seq(|members|, i requires 0 <= i < |members| => JStr(members[i].0)))
    case _ => None
  }

  /** The number of elements held by the list entries of `xs` from index
      `c` on; an entry that is not a list holds none. */
  function NestedCount(xs: seq<Json>, c: nat): nat
    requires c <= |xs|
    decreases |xs| - c
  {
    if c == |xs| then 0
    else (if xs[c].JList? then |xs[c].items| else 0) + NestedCount(xs, c + 1)
  }

  /** `len(x)` agrees with iteration and indexing: every index below the length
      of a string or list reads one of its elements. */
  lemma IndexBelowLen(j: Json, i: nat)
    requires j.JStr? || j.JList?
    requires Len(j).Some? && i < Len(j).value
    ensures Index(j, i).Some? && Iter(j).Some? && Index(j, i).value == Iter(j).value[i]
  {
  }
}
