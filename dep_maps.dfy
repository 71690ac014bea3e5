/**
 * Dependency maps: an object of dependency identifiers to version strings,
 * kept as the sequence of its members in property order, with distinct keys.
 */
module DepMaps {
  import opened Wrappers

  datatype Entry = Entry(key: string, version: string)

  predicate DistinctKeys(m: seq<Entry>)
  {
    forall i, j :: 0 <= i < j < |m| ==> m[i].key != m[j].key
  }

  type DepMap = m: seq<Entry> | DistinctKeys(m) witness []

  function KeySet(m: seq<Entry>): set<string>
  {
    set i | 0 <= i < |m| :: m[i].key
  }

  /** The position of `key` in `m`, if it is a key of `m`. */
  function Find(m: seq<Entry>, key: string): (r: Option<nat>)
    ensures r.Some? ==> r.value < |m| && m[r.value].key == key
    ensures r.Some? ==> forall j :: 0 <= j < r.value ==> m[j].key != key
    ensures r.None? <==> key !in KeySet(m)
  {
    if m == [] then None
    else if m[0].key == key then Some(0)
    else match Find(m[1..], key)
      case Some(i) => Some(i + 1)
      case None =>
        assert forall i :: 1 <= i < |m| ==> m[i].key == m[1..][i - 1].key;
        None
  }

  /** `hasOwnProperty(key)` / `containsKey(key)`. */
  predicate HasKey(m: seq<Entry>, key: string)
  {
    Find(m, key).Some?
  }

  /** `m[key]` for a key of `m`. */
  function Get(m: seq<Entry>, key: string): string
    requires HasKey(m, key)
  {
    m[Find(m, key).value].version
  }

  /** With distinct keys, `key: version` is a member exactly when `m[key]` is `version`. */
  lemma MemberIffGet(m: DepMap, key: string, version: string)
    ensures Entry(key, version) in m <==> HasKey(m, key) && Get(m, key) == version
  {
    if Entry(key, version) in m {
      var i :| 0 <= i < |m| && m[i] == Entry(key, version);
      assert key in KeySet(m);
      assert Find(m, key).value == i;
    }
  }

  lemma HasKeyIffMember(m: seq<Entry>, key: string)
    ensures HasKey(m, key) <==> exists v :: Entry(key, v) in m
  {
    if HasKey(m, key) {
      assert m[Find(m, key).value] == Entry(key, Get(m, key));
    }
    if exists v :: Entry(key, v) in m {
      var v :| Entry(key, v) in m;
      var i :| 0 <= i < |m| && m[i] == Entry(key, v);
      assert key in KeySet(m);
    }
  }

  /** With distinct keys, the position of a key is the one place holding it. */
  lemma FindAt(m: DepMap, i: nat)
    requires i < |m|
    ensures Find(m, m[i].key) == Some(i)
  {
    assert m[i].key in KeySet(m);
  }

  /** `map[key] = version`: replaced where `key` is, else appended, as a `LinkedHashMap` keeps order. */
  function Put(m: DepMap, key: string, version: string): (r: DepMap)
  {
    match Find(m, key)
    case Some(i) =>
      var r := m[i := Entry(key, version)];
      assert DistinctKeys(r) by {
        forall a, b | 0 <= a < b < |r| ensures r[a].key != r[b].key {
          assert r[a].key == m[a].key && r[b].key == m[b].key;
        }
      }
      r
    case None =>
      var r := m + [Entry(key, version)];
      assert DistinctKeys(r) by {
        forall a, b | 0 <= a < b < |r| ensures r[a].key != r[b].key {
          if b == |m| {
            assert m[a].key in KeySet(m);
          }
        }
      }
      r
  }

  /** After `Put`, `key` holds `version` and every other key is as it was. */
  lemma PutGet(m: DepMap, key: string, version: string, k: string)
    ensures HasKey(Put(m, key, version), k) <==> k == key || HasKey(m, k)
    ensures HasKey(Put(m, key, version), k) ==>
      Get(Put(m, key, version), k) == if k == key then version else Get(m, k)
  {
    var r := Put(m, key, version);
    match Find(m, key)
    case Some(i) =>
      FindAt(r, i);
      if HasKey(m, k) && k != key {
        var j := Find(m, k).value;
        FindAt(r, j);
      }
      if HasKey(r, k) && k != key {
        var j := Find(r, k).value;
        FindAt(m, j);
      }
    case None =>
      FindAt(r, |m|);
      if HasKey(m, k) {
        var j := Find(m, k).value;
        FindAt(r, j);
      }
      if HasKey(r, k) && k != key {
        var j := Find(r, k).value;
        FindAt(m, j);
      }
  }

  /** `Put` keeps every key where it was and adds `key` at the end when it is new. */
  lemma PutOrder(m: DepMap, key: string, version: string)
    ensures HasKey(m, key) ==> |Put(m, key, version)| == |m|
    ensures !HasKey(m, key) ==> Put(m, key, version) == m + [Entry(key, version)]
    ensures forall i :: 0 <= i < |m| ==> Put(m, key, version)[i].key == m[i].key
    ensures KeySet(Put(m, key, version)) == KeySet(m) + {key}
  {
    var r := Put(m, key, version);
    forall k ensures k in KeySet(r) <==> k in KeySet(m) + {key} {
      PutGet(m, key, version, k);
    }
  }

  lemma KeySetSnoc(m: seq<Entry>, e: Entry)
    ensures KeySet(m + [e]) == KeySet(m) + {e.key}
  {
    var r := m + [e];
    forall k ensures k in KeySet(r) <==> k in KeySet(m) + {e.key} {
      if k in KeySet(r) {
        var i :| 0 <= i < |r| && r[i].key == k;
        if i < |m| {
          assert m[i].key == k;
        }
      }
      if k in KeySet(m) {
        var i :| 0 <= i < |m| && m[i].key == k;
        assert r[i].key == k;
      }
      if k == e.key {
        assert r[|m|].key == k;
      }
    }
  }
}
