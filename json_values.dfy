/** Values produced by `json.load`, and the Python operations the lookup
    code applies to them: truthiness, `in`, indexing, `dict.get` and
    `dict.items()`, each with the exception Python raises on a value of the
    wrong kind. An object keeps its members in document order; where a
    document repeats a key, `json.load` keeps the value that comes last,
    and so do lookups. */
module JsonValues {
  import opened Wrappers
  import opened Text

  datatype Json =
    | JNull
    | JBool(b: bool)
    | JNum(n: int)
    | JStr(s: string)
    | JArr(items: seq<Json>)
    | JObj(members: seq<(string, Json)>)

  /** The empty object `{}`, the default of every `.get(key, {})`. */
  function EmptyObject(): Json
  {
    JObj([])
  }

  /** `bool(v)`. */
  predicate Truthy(v: Json)
  {
    match v
    case JNull => false
    case JBool(b) => b
    case JNum(n) => n != 0
    case JStr(s) => s != ""
    case JArr(items) => items != []
    case JObj(members) => members != []
  }

  /** `i` is the last position of a member with the key `key`. */
  ghost predicate LastKeyAt(members: seq<(string, Json)>, key: string, i: int)
  {
    0 <= i < |members| && members[i].0 == key && forall j :: i < j < |members| ==> members[j].0 != key
  }

  /** The value stored under `key` among `members`, if any; of repeated
      keys the last one wins, as when `json.load` builds a dict. */
  function Lookup(members: seq<(string, Json)>, key: string): (r: Option<Json>)
    ensures r.None? <==> forall i :: 0 <= i < |members| ==> members[i].0 != key
    ensures r.Some? ==> exists i :: LastKeyAt(members, key, i) && members[i].1 == r.value
  {
    if members == [] then None
    else
      var n := |members| - 1;
      if members[n].0 == key then
        assert LastKeyAt(members, key, n);
        Some(members[n].1)
      else
        var init := members[..n];
        var r := Lookup(init, key);
        assert forall i :: 0 <= i < n ==> init[i] == members[i];
        assert r.Some? ==> exists i :: LastKeyAt(members, key, i) && members[i].1 == r.value by {
          if r.Some? {
            var i :| LastKeyAt(init, key, i) && init[i].1 == r.value;
            assert LastKeyAt(members, key, i);
          }
        }
        r
  }

  /** A value Python can hash; lists and dicts cannot be dictionary keys. */
  predicate Hashable(v: Json)
  {
    !v.JArr? && !v.JObj?
  }

  /** Position `i` holds the last member with its key: the one whose value
      the loaded dict keeps. */
  predicate LastOfKey(members: seq<(string, Json)>, i: nat)
    requires i < |members|
  {
    forall j :: i < j < |members| ==> members[j].0 != members[i].0
  }

  /** Every key of `a` is a key of `b`. */
  predicate KeysWithin(a: seq<(string, Json)>, b: seq<(string, Json)>)
  {
    forall i :: 0 <= i < |a| ==> a[i].0 in MemberKeys(b)
  }

  /** Python's `==` on loaded values: lists element by element, objects as
      the dicts `json.load` builds from them (the same keys, and equal
      values under each key, whatever the members' order or repeats),
      anything else by value. */
  predicate PyEq(a: Json, b: Json)
    decreases a
  {
    match a
    case JArr(xs) =>
      b.JArr? && |xs| == |b.items| && forall i :: 0 <= i < |xs| ==> PyEq(xs[i], b.items[i])
    case JObj(am) =>
      && b.JObj? && KeysWithin(am, b.members) && KeysWithin(b.members, am)
      && forall i, j ::
           (0 <= i < |am| && 0 <= j < |b.members| && LastOfKey(am, i) && LastOfKey(b.members, j) && am[i].0 == b.members[j].0)
           ==> PyEq(am[i].1, b.members[j].1)
    case _ => a == b
  }

  lemma KeysWithinSelf(m: seq<(string, Json)>)
    ensures KeysWithin(m, m)
  {
    var keys := MemberKeys(m);
    forall i | 0 <= i < |m| ensures m[i].0 in keys {
      assert keys[i] == m[i].0;
    }
  }

  /** Every value equals itself. */
  lemma {:induction false} PyEqReflexive(a: Json)
    ensures PyEq(a, a)
    decreases a
  {
    match a
    case JArr(xs) =>
      forall i | 0 <= i < |xs| ensures PyEq(xs[i], xs[i]) {
        PyEqReflexive(xs[i]);
      }
    case JObj(am) =>
      KeysWithinSelf(am);
      forall i, j | 0 <= i < |am| && 0 <= j < |am| && LastOfKey(am, i) && LastOfKey(am, j) && am[i].0 == am[j].0
        ensures PyEq(am[i].1, am[j].1)
      {
        assert i == j;
        PyEqReflexive(am[i].1);
      }
    case _ =>
  }

  /** An object whose members come in another order is equal as a dict,
      and so is found in a list holding it. */
  lemma ReorderedObjectFound()
    ensures Contains(JArr([JObj([("b", JNum(2)), ("a", JNum(1))])]), JObj([("a", JNum(1)), ("b", JNum(2))])) == Ok(true)
  {
    var xm := [("b", JNum(2)), ("a", JNum(1))];
    var ym := [("a", JNum(1)), ("b", JNum(2))];
    assert KeysWithin(xm, ym) by {
      assert ym[1].0 == xm[0].0 && ym[0].0 == xm[1].0;
    }
    assert KeysWithin(ym, xm) by {
      assert xm[1].0 == ym[0].0 && xm[0].0 == ym[1].0;
    }
    forall i, j | 0 <= i < 2 && 0 <= j < 2 && LastOfKey(xm, i) && LastOfKey(ym, j) && xm[i].0 == ym[j].0
      ensures PyEq(xm[i].1, ym[j].1)
    {
      assert i == 1 - j;
    }
    assert PyEq(JObj(xm), JObj(ym));
    assert [JObj(xm)][0] == JObj(xm);
  }

  /** `key in container`: a key of an object, an element of a list, a
      substring of a string; anything else raises TypeError. */
  function Contains(container: Json, key: Json): (r: Result<bool>)
    ensures r.Err? ==> r.error == TypeError
    ensures container.JArr? ==> r == Ok(exists i :: 0 <= i < |container.items| && PyEq(container.items[i], key))
    ensures container.JObj? && key.JStr? ==> r == Ok(Lookup(container.members, key.s).Some?)
    ensures container.JObj? && !key.JStr? && Hashable(key) ==> r == Ok(false)
  {
    match container
    case JObj(members) =>
      if !Hashable(key) then Err(TypeError)
      else if key.JStr? then Ok(Lookup(members, key.s).Some?)
      else Ok(false)
    case JArr(items) => Ok(exists i :: 0 <= i < |items| && PyEq(items[i], key))
    case JStr(s) => if key.JStr? then Ok(IsSubstring(key.s, s)) else Err(TypeError)
    case _ => Err(TypeError)
  }

  /** `container[key]` for a string key: KeyError when an object lacks it,
      TypeError on anything but an object. */
  function Index(container: Json, key: string): (r: Result<Json>)
    ensures r.Ok? <==> container.JObj? && Lookup(container.members, key).Some?
    ensures r.Ok? ==> r.value == Lookup(container.members, key).value
    ensures r.Err? ==> r.error == (if container.JObj? then KeyError else TypeError)
  {
    match container
    case JObj(members) =>
      (match Lookup(members, key)
       case Some(v) => Ok(v)
       case None => Err(KeyError))
    case _ => Err(TypeError)
  }

  /** `container.get(key, default)`: AttributeError on anything but an
      object, the default for a missing or unhashable-free absent key, and
      TypeError for an unhashable key. */
  function Get(container: Json, key: Json, default: Json): (r: Result<Json>)
    ensures !container.JObj? ==> r == Err(AttributeError)
    ensures container.JObj? && key.JStr? ==>
              r == Ok(match Lookup(container.members, key.s) case Some(v) => v case None => default)
    ensures container.JObj? && !key.JStr? && Hashable(key) ==> r == Ok(default)
    ensures r.Err? ==> r.error in {AttributeError, TypeError}
  {
    match container
    case JObj(members) =>
      if !Hashable(key) then Err(TypeError)
      else if key.JStr? then
        (match Lookup(members, key.s)
         case Some(v) => Ok(v)
         case None => Ok(default))
      else Ok(default)
    case _ => Err(AttributeError)
  }

  /** Some member has the key `key`. */
  ghost predicate HasKey(members: seq<(string, Json)>, key: string)
  {
    exists a :: 0 <= a < |members| && members[a].0 == key
  }

  /** Some member before position `b` has the key `key`. */
  ghost predicate KeyBefore(members: seq<(string, Json)>, key: string, b: int)
  {
    exists a :: 0 <= a < b && a < |members| && members[a].0 == key
  }

  /** The keys of the dict `json.load` builds from `members`: each key once,
      in the order of its first appearance. */
  function DictKeys(members: seq<(string, Json)>): (keys: seq<string>)
    ensures forall i, j :: 0 <= i < j < |keys| ==> keys[i] != keys[j]
    ensures forall key :: key in keys <==> HasKey(members, key)
  {
    if members == [] then []
    else
      var n := |members| - 1;
      var init := members[..n];
      var key := members[n].0;
      var pre := DictKeys(init);
      var keys := if key in pre then pre else pre + [key];
      forall k ensures k in keys <==> HasKey(members, k) {
        if k == key {
          assert members[n].0 == k;
        }
        if HasKey(members, k) && k != key {
          var a :| 0 <= a < |members| && members[a].0 == k;
          assert init[a].0 == k;
        }
      }
      keys
  }

  /** The dict's keys come in the order of their first appearance: every
      occurrence of a later key comes after some occurrence of an earlier one. */
  lemma DictKeysOrder(members: seq<(string, Json)>)
    ensures forall i, j, b :: 0 <= i < j < |DictKeys(members)| && 0 <= b < |members| && members[b].0 == DictKeys(members)[j] ==>
      KeyBefore(members, DictKeys(members)[i], b)
  {
    forall i, j, b | 0 <= i < j < |DictKeys(members)| && 0 <= b < |members| && members[b].0 == DictKeys(members)[j]
      ensures KeyBefore(members, DictKeys(members)[i], b)
    {
      DictKeysOrderAt(members, i, j, b);
    }
  }

  /** `DictKeysOrder` for the keys at `i` and `j` and the occurrence at `b`. */
  lemma {:induction false} DictKeysOrderAt(members: seq<(string, Json)>, i: nat, j: nat, b: nat)
    requires i < j < |DictKeys(members)| && b < |members| && members[b].0 == DictKeys(members)[j]
    ensures KeyBefore(members, DictKeys(members)[i], b)
  {
    var n := |members| - 1;
    var init := members[..n];
    var key := members[n].0;
    var pre := DictKeys(init);
    var keys := DictKeys(members);
    assert keys == if key in pre then pre else pre + [key];
    assert keys[i] in pre;
    assert b < n ==> HasKey(init, init[b].0) && init[b].0 in pre;
    assert j == |pre| ==> keys[j] == key && key !in pre;
    if j < |pre| && b < n {
      assert keys[i] == pre[i] && keys[j] == pre[j] && init[b] == members[b];
      DictKeysOrderAt(init, i, j, b);
      var a :| 0 <= a < b && a < n && init[a].0 == keys[i];
      assert members[a].0 == keys[i];
    } else {
      var a :| 0 <= a < n && init[a].0 == keys[i];
      assert members[a].0 == keys[i];
    }
  }

  /** The items of the dict `json.load` builds from `members`: each key
      once, at the position of its first appearance, with the value of its
      last. */
  function DictItems(members: seq<(string, Json)>): (r: seq<(string, Json)>)
    ensures |r| == |DictKeys(members)|
    ensures forall i :: 0 <= i < |r| ==> r[i].0 == DictKeys(members)[i] && Lookup(members, r[i].0) == Some(r[i].1)
  {
    var keys := DictKeys(members);
    assert forall i :: 0 <= i < |keys| ==> Lookup(members, keys[i]).Some? by {
      forall i | 0 <= i < |keys| ensures Lookup(members, keys[i]).Some? {
        assert HasKey(members, keys[i]);
      }
    }
    seq(|keys|, i requires 0 <= i < |keys| => (keys[i], Lookup(members, keys[i]).value))
  }

  /** The keys of an object, in order. */
  function MemberKeys(members: seq<(string, Json)>): (keys: seq<string>)
    ensures |keys| == |members|
    ensures forall i :: 0 <= i < |members| ==> keys[i] == members[i].0
  {
    seq(|members|, i requires 0 <= i < |members| => members[i].0)
  }

  /** Without a repeated key, the dict's keys are the object's keys. */
  lemma {:induction false} DictKeysDistinct(members: seq<(string, Json)>)
    requires forall i, j :: 0 <= i < j < |members| ==> members[i].0 != members[j].0
    ensures DictKeys(members) == MemberKeys(members)
  {
    if members != [] {
      var n := |members| - 1;
      var init := members[..n];
      DictKeysDistinct(init);
      assert MemberKeys(members) == MemberKeys(init) + [members[n].0];
      assert !HasKey(init, members[n].0) by {
        assert forall i :: 0 <= i < n ==> init[i].0 != members[n].0;
      }
    }
  }

  /** An object without a repeated key is its own dict. */
  lemma DictItemsDistinct(members: seq<(string, Json)>)
    requires forall i, j :: 0 <= i < j < |members| ==> members[i].0 != members[j].0
    ensures DictItems(members) == members
  {
    DictKeysDistinct(members);
    var r := DictItems(members);
    forall i | 0 <= i < |members| ensures r[i] == members[i] {
      var v := Lookup(members, members[i].0).value;
      var a :| LastKeyAt(members, members[i].0, a) && members[a].1 == v;
      assert forall j :: 0 <= j < |members| && j != i ==> members[j].0 != members[i].0;
    }
  }

  /** `container.items()`: the dict's items for an object, AttributeError otherwise. */
  function Items(container: Json): (r: Result<seq<(string, Json)>>)
    ensures r.Ok? <==> container.JObj?
    ensures r.Ok? ==> r.value == DictItems(container.members)
    ensures r.Err? ==> r.error == AttributeError
  {
    if container.JObj? then Ok(DictItems(container.members)) else Err(AttributeError)
  }
}
