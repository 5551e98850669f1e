/** A parsed CSV row as JavaScript holds it: a plain object whose keys keep the order in which
    they were first added. Writing `{ ...obj, [key]: value }` overwrites the value of a key that
    is present, in its place, and adds a missing key at the end. */
module Records {
  import opened Base

  datatype Field = Field(key: string, value: string)

  type Record = seq<Field>

  /** `Object.keys(row)`. */
  function Keys(row: Record): (r: seq<string>)
    ensures |r| == |row|
    ensures forall k :: 0 <= k < |row| ==> r[k] == row[k].key
  {
    seq(|row|, k requires 0 <= k < |row| => row[k].key)
  }

  predicate HasKey(row: Record, key: string) {
    exists k :: 0 <= k < |row| && row[k].key == key
  }

  /** No key occurs twice, as in every JavaScript object. */
  predicate WellFormed(row: Record) {
    forall i, j :: 0 <= i < j < |row| ==> row[i].key != row[j].key
  }

  /** Where `key` sits in the row: its first position. */
  function KeyIndex(row: Record, key: string): (i: nat)
    requires HasKey(row, key)
    ensures i < |row| && row[i].key == key
    ensures forall j :: 0 <= j < i ==> row[j].key != key
  {
    if row[0].key == key then 0
    else
      assert HasKey(row[1..], key) by {
        var k :| 0 <= k < |row| && row[k].key == key;
        assert row[1..][k - 1].key == key;
      }
      1 + KeyIndex(row[1..], key)
  }

  /** `row[key]`, `None` standing for `undefined`. */
  function Get(row: Record, key: string): (r: Option<string>)
    ensures r.Some? <==> HasKey(row, key)
  {
    if HasKey(row, key) then Some(row[KeyIndex(row, key)].value) else None
  }

  /** `{ ...row, [key]: value }`. */
  function Set(row: Record, key: string, value: string): Record {
    if HasKey(row, key) then row[KeyIndex(row, key) := Field(key, value)] else row + [Field(key, value)]
  }

  /** Writing keeps the keys in place and adds a new key at the end. */
  lemma SetKeys(row: Record, key: string, value: string)
    ensures Keys(Set(row, key, value)) == if HasKey(row, key) then Keys(row) else Keys(row) + [key]
  {
  }

  /** After a write the row has the keys it had, and the key written. */
  lemma SetHasKey(row: Record, key: string, value: string, other: string)
    ensures HasKey(Set(row, key, value), other) <==> HasKey(row, other) || other == key
  {
    var r := Set(row, key, value);
    if HasKey(row, key) {
      var i := KeyIndex(row, key);
      if HasKey(row, other) {
        var j :| 0 <= j < |row| && row[j].key == other;
        assert r[j].key == other;
      }
    } else {
      assert r[|row|].key == key;
      if HasKey(row, other) {
        var j :| 0 <= j < |row| && row[j].key == other;
        assert r[j].key == other;
      }
    }
  }

  /** The key just written reads back the value just written. */
  lemma GetSetSame(row: Record, key: string, value: string)
    ensures Get(Set(row, key, value), key) == Some(value)
  {
    var r := Set(row, key, value);
    if HasKey(row, key) {
      var i := KeyIndex(row, key);
      assert KeyIndex(r, key) == i by {
        assert r[i].key == key;
      }
    } else {
      assert r[|row|].key == key;
      assert KeyIndex(r, key) == |row|;
    }
  }

  /** Every other key reads back what it read before. */
  lemma GetSetOther(row: Record, key: string, other: string, value: string)
    requires other != key
    ensures Get(Set(row, key, value), other) == Get(row, other)
  {
    var r := Set(row, key, value);
    if HasKey(row, other) {
      var i := KeyIndex(row, other);
      assert r[i] == row[i];
      assert HasKey(r, other);
      assert KeyIndex(r, other) == i;
    }
  }

  /** Writing keeps a well-formed row well formed. */
  lemma SetWellFormed(row: Record, key: string, value: string)
    requires WellFormed(row)
    ensures WellFormed(Set(row, key, value))
  {
    var r := Set(row, key, value);
    SetKeys(row, key, value);
    forall i, j | 0 <= i < j < |r| ensures r[i].key != r[j].key {
      assert r[i].key == Keys(r)[i] && r[j].key == Keys(r)[j];
    }
  }
}
