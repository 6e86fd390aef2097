/**
 * The metadata store of a construction node: an ordered array of key/value
 * entries that is searched front to back. The functions here say what the
 * node's metadata operations compute; the node's methods are proved against them.
 */
module MetaData {
  import opened CoreTypes
  import opened Sequences

  /** One key/value metadata entry (FBPVariableMetaDataEntry). */
  datatype MetaDataEntry = MetaDataEntry(DataKey: Name, DataValue: string)

  /** The position of the first entry whose key is `key`, or INDEX_NONE when there is none. */
  function IndexOfKey(md: seq<MetaDataEntry>, key: Name): (r: int)
    ensures r == INDEX_NONE || 0 <= r < |md|
    ensures r == INDEX_NONE <==> forall i :: 0 <= i < |md| ==> md[i].DataKey != key
    ensures r != INDEX_NONE ==> md[r].DataKey == key
    ensures r != INDEX_NONE ==> forall j :: 0 <= j < r ==> md[j].DataKey != key
  {
    if md == [] then INDEX_NONE
    else if md[0].DataKey == key then 0
    else
      var k := IndexOfKey(md[1..], key);
      if k == INDEX_NONE then INDEX_NONE else k + 1
  }

  /** Some entry has key `key`. */
  predicate HasKey(md: seq<MetaDataEntry>, key: Name)
  {
    IndexOfKey(md, key) != INDEX_NONE
  }

  /** The value stored under `key`: the value of the first entry with that key. */
  function ValueOf(md: seq<MetaDataEntry>, key: Name): (v: string)
    requires HasKey(md, key)
    ensures MetaDataEntry(key, v) in md
  {
    md[IndexOfKey(md, key)].DataValue
  }

  /** No two entries share a key. */
  ghost predicate UniqueKeys(md: seq<MetaDataEntry>)
  {
    forall i, j :: 0 <= i < |md| && 0 <= j < |md| && i != j ==> md[i].DataKey != md[j].DataKey
  }

  /** Upsert: overwrite the value of the first entry with `key`, or append a new entry at the end. */
  function SetEntry(md: seq<MetaDataEntry>, key: Name, value: string): (r: seq<MetaDataEntry>)
    ensures |r| == if HasKey(md, key) then |md| else |md| + 1
    ensures MetaDataEntry(key, value) in r
  {
    var i, e := IndexOfKey(md, key), MetaDataEntry(key, value);
    if i == INDEX_NONE then
      assert (md + [e])[|md|] == e;
      md + [e]
    else
      assert md[i := e][i] == e;
      md[i := e]
  }

  /** Remove the first entry with `key`; nothing changes when there is none. */
  function RemoveEntry(md: seq<MetaDataEntry>, key: Name): (r: seq<MetaDataEntry>)
    ensures HasKey(md, key) ==> DroppedAt(md, r, IndexOfKey(md, key))
    ensures !HasKey(md, key) ==> r == md
  {
    var i := IndexOfKey(md, key);
    if i == INDEX_NONE then md
    else
      RemoveAtIndices(md, i);
      md[..i] + md[i + 1..]
  }

  /** After setting `key` to `value`, the key is present and reads back `value`. */
  lemma SetThenGet(md: seq<MetaDataEntry>, key: Name, value: string)
    ensures HasKey(SetEntry(md, key, value), key)
    ensures ValueOf(SetEntry(md, key, value), key) == value
  {
    var i := IndexOfKey(md, key);
    var r := SetEntry(md, key, value);
    if i == INDEX_NONE {
      assert r[|md|].DataKey == key;
    } else {
      assert r[i].DataKey == key;
    }
  }

  /** Setting a key overwrites in place when the key is present and appends otherwise; the entry order is kept. */
  lemma SetShape(md: seq<MetaDataEntry>, key: Name, value: string)
    ensures HasKey(md, key) ==> |SetEntry(md, key, value)| == |md| && IndexOfKey(SetEntry(md, key, value), key) == IndexOfKey(md, key)
    ensures !HasKey(md, key) ==> SetEntry(md, key, value) == md + [MetaDataEntry(key, value)]
    ensures forall i :: 0 <= i < |md| ==> SetEntry(md, key, value)[i].DataKey == md[i].DataKey
  {
  }

  /** Setting one key changes neither the presence nor the value of any other key. */
  lemma SetKeepsOtherKeys(md: seq<MetaDataEntry>, key: Name, value: string, other: Name)
    requires other != key
    ensures IndexOfKey(SetEntry(md, key, value), other) == IndexOfKey(md, other)
    ensures HasKey(md, other) ==> ValueOf(SetEntry(md, key, value), other) == ValueOf(md, other)
  {
    var r := SetEntry(md, key, value);
    var i := IndexOfKey(md, other);
    var j := IndexOfKey(r, other);
    if IndexOfKey(md, key) == INDEX_NONE {
      assert forall k :: 0 <= k < |md| ==> r[k] == md[k];
      assert r[|md|].DataKey != other;
    } else {
      assert forall k :: 0 <= k < |md| ==> (r[k].DataKey == other <==> md[k].DataKey == other);
    }
    if i != INDEX_NONE {
      assert r[i].DataKey == other;
    }
    if j != INDEX_NONE {
      assert j < |md| && md[j].DataKey == other;
    }
  }

  /** Setting a key keeps keys unique: SetMetaData never creates a second entry for a key. */
  lemma SetPreservesUniqueKeys(md: seq<MetaDataEntry>, key: Name, value: string)
    requires UniqueKeys(md)
    ensures UniqueKeys(SetEntry(md, key, value))
  {
    var r := SetEntry(md, key, value);
    var i := IndexOfKey(md, key);
    if i == INDEX_NONE {
      forall a, b | 0 <= a < |r| && 0 <= b < |r| && a != b ensures r[a].DataKey != r[b].DataKey {
        if a < |md| && b < |md| {
          assert r[a] == md[a] && r[b] == md[b];
        }
      }
    } else {
      assert forall k :: 0 <= k < |md| ==> r[k].DataKey == md[k].DataKey;
    }
  }

  /** Setting a key twice to the same value is the same as setting it once. */
  lemma SetIdempotent(md: seq<MetaDataEntry>, key: Name, value: string)
    ensures SetEntry(SetEntry(md, key, value), key, value) == SetEntry(md, key, value)
  {
    SetThenGet(md, key, value);
    var r := SetEntry(md, key, value);
    var j := IndexOfKey(r, key);
    assert r[j] == MetaDataEntry(key, value) by {
      SetShape(md, key, value);
    }
    assert r[j := MetaDataEntry(key, value)] == r;
  }

  /** With unique keys, removing a key leaves no entry for it, so a later search reports INDEX_NONE. */
  lemma RemoveThenAbsent(md: seq<MetaDataEntry>, key: Name)
    requires UniqueKeys(md)
    ensures IndexOfKey(RemoveEntry(md, key), key) == INDEX_NONE
  {
    var i := IndexOfKey(md, key);
    if i != INDEX_NONE {
      var r := RemoveEntry(md, key);
      forall k | 0 <= k < |r| ensures r[k].DataKey != key {
        if k < i {
          assert r[k] == md[k];
        } else {
          assert r[k] == md[k + 1] && k + 1 != i;
        }
      }
    }
  }

  /** Removing a key changes neither the presence nor the value of any other key. */
  lemma RemoveKeepsOtherKeys(md: seq<MetaDataEntry>, key: Name, other: Name)
    requires other != key
    ensures HasKey(RemoveEntry(md, key), other) == HasKey(md, other)
    ensures HasKey(md, other) ==> ValueOf(RemoveEntry(md, key), other) == ValueOf(md, other)
  {
    if HasKey(md, key) {
      ShiftKeepsOtherKeys(md, RemoveEntry(md, key), IndexOfKey(md, key), other);
    }
  }

  /** Taking out an entry whose key is not `other` changes neither the presence nor the value of `other`. */
  lemma ShiftKeepsOtherKeys(md: seq<MetaDataEntry>, r: seq<MetaDataEntry>, i: nat, other: Name)
    requires DroppedAt(md, r, i) && md[i].DataKey != other
    ensures HasKey(r, other) == HasKey(md, other)
    ensures HasKey(md, other) ==> ValueOf(r, other) == ValueOf(md, other)
  {
    var j := IndexOfKey(md, other);
    if j == INDEX_NONE {
      ShiftAbsent(md, r, i, other);
    } else if j < i {
      ShiftBefore(md, r, i, other);
    } else {
      ShiftAfter(md, r, i, other);
    }
  }

  /** A key absent before taking an entry out is absent after it. */
  lemma ShiftAbsent(md: seq<MetaDataEntry>, r: seq<MetaDataEntry>, i: nat, other: Name)
    requires DroppedAt(md, r, i) && !HasKey(md, other)
    ensures !HasKey(r, other)
  {
    forall k | 0 <= k < |r| ensures r[k].DataKey != other {
      assert r[k] == md[Skip(k, i)];
    }
  }

  /** A key first found before the entry taken out stays at its position. */
  lemma ShiftBefore(md: seq<MetaDataEntry>, r: seq<MetaDataEntry>, i: nat, other: Name)
    requires DroppedAt(md, r, i) && HasKey(md, other) && IndexOfKey(md, other) < i
    ensures IndexOfKey(r, other) == IndexOfKey(md, other)
    ensures r[IndexOfKey(md, other)] == md[IndexOfKey(md, other)]
  {
    var j := IndexOfKey(md, other);
    assert r[j] == md[Skip(j, i)];
    forall k | 0 <= k < j ensures r[k].DataKey != other {
      assert r[k] == md[Skip(k, i)];
    }
    FirstIndex(r, other, j);
  }

  /** A key first found after the entry taken out moves down by one position. */
  lemma ShiftAfter(md: seq<MetaDataEntry>, r: seq<MetaDataEntry>, i: nat, other: Name)
    requires DroppedAt(md, r, i) && md[i].DataKey != other
    requires HasKey(md, other) && IndexOfKey(md, other) >= i
    ensures IndexOfKey(md, other) > i
    ensures IndexOfKey(r, other) == IndexOfKey(md, other) - 1
    ensures r[IndexOfKey(md, other) - 1] == md[IndexOfKey(md, other)]
  {
    var j := IndexOfKey(md, other);
    assert r[j - 1] == md[Skip(j - 1, i)];
    forall k | 0 <= k < j - 1 ensures r[k].DataKey != other {
      assert r[k] == md[Skip(k, i)];
    }
    FirstIndex(r, other, j - 1);
  }

  /** An entry with `key` preceded by none is the first one. */
  lemma FirstIndex(md: seq<MetaDataEntry>, key: Name, j: nat)
    requires j < |md| && md[j].DataKey == key
    requires forall k :: 0 <= k < j ==> md[k].DataKey != key
    ensures IndexOfKey(md, key) == j
  {
  }

  /** Removing keeps keys unique. */
  lemma RemovePreservesUniqueKeys(md: seq<MetaDataEntry>, key: Name)
    requires UniqueKeys(md)
    ensures UniqueKeys(RemoveEntry(md, key))
  {
    var i := IndexOfKey(md, key);
    if i != INDEX_NONE {
      UniqueKeysRemoveAt(md, i);
    }
  }

  /** Dropping one position of an array with unique keys keeps its keys unique. */
  lemma UniqueKeysRemoveAt(md: seq<MetaDataEntry>, i: nat)
    requires UniqueKeys(md) && i < |md|
    ensures UniqueKeys(md[..i] + md[i + 1..])
  {
    var r := md[..i] + md[i + 1..];
    forall a, b | 0 <= a < |r| && 0 <= b < |r| && a != b ensures r[a].DataKey != r[b].DataKey {
      var a' := if a < i then a else a + 1;
      var b' := if b < i then b else b + 1;
      assert r[a] == md[a'];
      assert r[b] == md[b'];
    }
  }

  /** Setting a new key and then removing it gives back the original entries. */
  lemma SetThenRemove(md: seq<MetaDataEntry>, key: Name, value: string)
    requires !HasKey(md, key)
    ensures RemoveEntry(SetEntry(md, key, value), key) == md
  {
    var r := SetEntry(md, key, value);
    assert r == md + [MetaDataEntry(key, value)];
    assert forall k :: 0 <= k < |md| ==> r[k] == md[k] && r[k].DataKey != key;
    assert r[|md|].DataKey == key;
    assert IndexOfKey(r, key) == |md|;
    assert r[..|md|] == md;
  }
}
