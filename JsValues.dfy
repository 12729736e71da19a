/** JavaScript values as the metadata, messages and search hits carry them,
    with the few language rules the core relies on: `typeof`, truthiness,
    `Object.entries`, property lookup, property assignment and the string
    conversion a template literal applies. */
module JsValues {
  import opened Strings

  /** Numbers are integers here (page numbers, counts); an object keeps
      its properties in `Object.entries` order. */
  datatype Value =
    | Str(s: string)
    | Num(n: int)
    | Bool(b: bool)
    | Null
    | Undef
    | Obj(props: seq<(string, Value)>)
    | Arr(elems: seq<Value>)

  type Entries = seq<(string, Value)>

  /** `typeof v` is "string", "number" or "boolean". */
  predicate IsPrimitive(v: Value) {
    v.Str? || v.Num? || v.Bool?
  }

  predicate IsNullish(v: Value) {
    v.Null? || v.Undef?
  }

  /** JavaScript truthiness. */
  predicate Truthy(v: Value) {
    match v
    case Str(s) => s != ""
    case Num(n) => n != 0
    case Bool(b) => b
    case Null => false
    case Undef => false
    case Obj(_) => true
    case Arr(_) => true
  }

  /** `Object.entries(v)` of an object or array: an array's entries are its
      elements under the keys "0", "1", ... */
  function EntriesOf(v: Value): (e: Entries)
    requires v.Obj? || v.Arr?
    ensures v.Obj? ==> e == v.props
    ensures v.Arr? ==> |e| == |v.elems|
    ensures v.Arr? ==> forall i :: 0 <= i < |e| ==> e[i] == (NatToString(i), v.elems[i])
  {
    if v.Obj? then v.props
    else seq(|v.elems|, i requires 0 <= i < |v.elems| => (NatToString(i), v.elems[i]))
  }

  predicate HasKey(e: Entries, key: string) {
    exists i :: 0 <= i < |e| && e[i].0 == key
  }

  predicate DistinctKeys(e: Entries) {
    forall i, j :: 0 <= i < j < |e| ==> e[i].0 != e[j].0
  }

  /** Property read `o[key]`: the value stored under `key`, or undefined. */
  function Get(e: Entries, key: string): (v: Value)
    ensures !HasKey(e, key) ==> v == Undef
    ensures HasKey(e, key) ==> exists i :: 0 <= i < |e| && e[i] == (key, v)
  {
    if e == [] then Undef
    else if e[0].0 == key then e[0].1
    else Get(e[1..], key)
  }

  /** Property write `o[key] = v`: an existing property keeps its place and
      takes the new value; a new one is appended. */
  function Set(e: Entries, key: string, v: Value): (r: Entries)
    ensures HasKey(e, key) ==> |r| == |e|
    ensures !HasKey(e, key) ==> r == e + [(key, v)]
    ensures forall i :: 0 <= i < |e| && e[i].0 != key ==> r[i] == e[i]
    ensures forall i :: 0 <= i < |r| ==> r[i] == (key, v) || (i < |e| && r[i] == e[i])
  {
    if e == [] then [(key, v)]
    else if e[0].0 == key then [(key, v)] + e[1..]
    else [e[0]] + Set(e[1..], key, v)
  }

  /** After a write, reading the written key gives the new value and every
      other key reads as before. */
  lemma {:induction false} GetAfterSet(e: Entries, key: string, v: Value, other: string)
    ensures Get(Set(e, key, v), key) == v
    ensures other != key ==> Get(Set(e, key, v), other) == Get(e, other)
  {
    if e != [] && e[0].0 != key {
      GetAfterSet(e[1..], key, v, other);
    }
  }

  /** A write adds the written name to the object's names and no other. */
  lemma {:induction false} HasKeyAfterSet(e: Entries, key: string, v: Value, name: string)
    ensures HasKey(Set(e, key, v), name) <==> HasKey(e, name) || name == key
  {
    var r := Set(e, key, v);
    if HasKey(e, key) {
      var p :| 0 <= p < |e| && e[p].0 == key;
      assert r[p].0 == key;
    } else {
      assert r[|e|].0 == key;
    }
    if HasKey(e, name) && name != key {
      var p :| 0 <= p < |e| && e[p].0 == name;
      assert r[p] == e[p];
    }
    if HasKey(r, name) && name != key {
      var p :| 0 <= p < |r| && r[p].0 == name;
      assert e[p] == r[p];
    }
  }

  /** The names of a concatenation are the names of its parts. */
  lemma HasKeyConcat(a: Entries, b: Entries, name: string)
    ensures HasKey(a + b, name) <==> HasKey(a, name) || HasKey(b, name)
  {
    var r := a + b;
    if HasKey(a, name) {
      var p :| 0 <= p < |a| && a[p].0 == name;
      assert r[p] == a[p];
    }
    if HasKey(b, name) {
      var p :| 0 <= p < |b| && b[p].0 == name;
      assert r[|a| + p] == b[p];
    }
    if HasKey(r, name) && !HasKey(a, name) {
      var p :| 0 <= p < |r| && r[p].0 == name;
      if p < |a| {
        assert a[p] == r[p];
      } else {
        assert b[p - |a|] == r[p];
      }
    }
  }

  /** A write never creates a second property of the same name. */
  lemma SetKeepsKeysDistinct(e: Entries, key: string, v: Value)
    requires DistinctKeys(e)
    ensures DistinctKeys(Set(e, key, v))
  {
    var r := Set(e, key, v);
    if HasKey(e, key) {
      forall i, j | 0 <= i < j < |r| ensures r[i].0 != r[j].0 {
        assert r[i].0 == key ==> e[i].0 == key;
        assert r[j].0 == key ==> e[j].0 == key;
      }
    }
  }

  /** The string a template literal `${v}` produces from `v`. */
  function Display(v: Value): string
    decreases v, 1
  {
    match v
    case Str(s) => s
    case Num(n) => IntToString(n)
    case Bool(b) => if b then "true" else "false"
    case Null => "null"
    case Undef => "undefined"
    case Obj(_) => "[object Object]"
    case Arr(elems) => DisplayElements(v, elems)
  }

  /** `Array.prototype.toString`: elements joined by ",", with null and
      undefined elements written as "". */
  function DisplayElements(whole: Value, elems: seq<Value>): string
    requires whole.Arr? && elems <= whole.elems
    decreases whole, 0, |elems|
  {
    if elems == [] then ""
    else
      var last := elems[|elems| - 1];
      assert last in whole.elems;
      var item := if IsNullish(last) then "" else Display(last);
      if |elems| == 1 then item
      else DisplayElements(whole, elems[..|elems| - 1]) + "," + item
  }
}
