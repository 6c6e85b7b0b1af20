/**
 * The parsed JSON/YAML value tree every component works on. A mapping is an
 * ordered list of members, as a Python dict keeps insertion order. Lookup
 * finds the first member whose key is equal; assignment overwrites that
 * member in place or appends a new one at the end.
 */
module JsonValue {
  import opened Wrappers

  datatype Value =
    | Null
    | Bool(b: bool)
    | Int(i: int)
    | Str(s: string)
    | List(items: seq<Value>)
    | Map(members: seq<(Value, Value)>)

  type Fields = seq<(Value, Value)>

  /** Index of the first member whose key is `k`. */
  function IndexOf(m: Fields, k: Value): (r: Option<nat>)
    ensures r.Some? ==> r.value < |m| && m[r.value].0 == k
    ensures r.Some? ==> forall j :: 0 <= j < r.value ==> m[j].0 != k
    ensures r.None? <==> forall j :: 0 <= j < |m| ==> m[j].0 != k
  {
    if |m| == 0 then None
    else if m[0].0 == k then Some(0)
    else match IndexOf(m[1..], k)
      case None => None
      case Some(j) => Some(j + 1)
  }

  /** The first-index characterisation determines `IndexOf`. */
  lemma IndexOfIs(m: Fields, k: Value, i: nat)
    requires i < |m| && m[i].0 == k
    requires forall j :: 0 <= j < i ==> m[j].0 != k
    ensures IndexOf(m, k) == Some(i)
  {
  }

  /** Lookup depends only on the keys, so rewriting values keeps every index. */
  lemma IndexOfSameKeys(m: Fields, m': Fields, k: Value)
    requires |m| == |m'| && forall j :: 0 <= j < |m| ==> m[j].0 == m'[j].0
    ensures IndexOf(m', k) == IndexOf(m, k)
  {
    if IndexOf(m, k).Some? {
      IndexOfIs(m', k, IndexOf(m, k).value);
    }
  }

  /** `k in d` for a dict `d`. */
  predicate HasKey(m: Fields, k: Value) {
    IndexOf(m, k).Some?
  }

  /** `d[k]`, or `None` when `k` is absent. */
  function Get(m: Fields, k: Value): (r: Option<Value>)
    ensures r.Some? <==> HasKey(m, k)
    ensures r.Some? ==> exists j :: 0 <= j < |m| && m[j] == (k, r.value)
  {
    match IndexOf(m, k)
    case None => None
    case Some(j) => Some(m[j].1)
  }

  /** `d.get(k, default)`. */
  function GetOr(m: Fields, k: Value, default: Value): Value {
    match Get(m, k)
    case None => default
    case Some(v) => v
  }

  /** `d[k] = v`. */
  function Set(m: Fields, k: Value, v: Value): (r: Fields)
    ensures Get(r, k) == Some(v)
    ensures forall k' :: k' != k ==> Get(r, k') == Get(m, k')
    ensures HasKey(m, k) ==> |r| == |m| && forall j :: 0 <= j < |m| ==> r[j].0 == m[j].0
  {
    var r := if HasKey(m, k) then m[IndexOf(m, k).value := (k, v)] else m + [(k, v)];
    SetFrame(m, k, v, r);
    r
  }

  lemma SetFrame(m: Fields, k: Value, v: Value, r: Fields)
    requires r == if HasKey(m, k) then m[IndexOf(m, k).value := (k, v)] else m + [(k, v)]
    ensures Get(r, k) == Some(v)
    ensures forall k' :: k' != k ==> Get(r, k') == Get(m, k')
  {
    if HasKey(m, k) {
      IndexOfIs(r, k, IndexOf(m, k).value);
    } else {
      IndexOfIs(r, k, |m|);
    }
    forall k' | k' != k
      ensures Get(r, k') == Get(m, k')
    {
      if HasKey(m, k') {
        IndexOfIs(r, k', IndexOf(m, k').value);
      } else {
        assert forall j :: 0 <= j < |r| ==> r[j].0 != k';
      }
    }
  }

  /** The elements a Python `for` loop visits, or `None` when the value is not iterable. */
  function Iterate(v: Value): (r: Option<seq<Value>>)
    ensures r.None? <==> v.Null? || v.Bool? || v.Int?
    ensures v.List? ==> r == Some(v.items)
  {
    match v
    case Null => None
    case Bool(_) => None
    case Int(_) => None
    case Str(s) => Some(seq(|s|, i requires 0 <= i < |s| => Str([s[i]])))
    case List(items) => Some(items)
    case Map(members) => Some(seq(|members|, i requires 0 <= i < |members| => members[i].0))
  }
}
