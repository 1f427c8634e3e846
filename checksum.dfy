/**
 * The checksum of a scraped record: the requested fields that the record
 * holds, serialised canonically and hashed.
 *
 * `json.dumps(..., separators=(",", ":"), sort_keys=True)` and
 * `hashlib.sha256(text.encode()).hexdigest()` are library calls outside the
 * model; they are parameters here. Because the keys are sorted and the
 * separators fixed, the serialised text is a function of the key/value
 * mapping alone, so `dumps` takes a map.
 */
module Checksum {
  import opened Sorting

  type Key = string

  /** Python's ordering of `str`: lexicographic by code point, a proper prefix first. */
  predicate LexLe(a: Key, b: Key) {
    |a| == 0 || (|b| > 0 && (a[0] < b[0] || (a[0] == b[0] && LexLe(a[1..], b[1..]))))
  }

  lemma {:induction false} LexLeTotal(a: Key, b: Key)
    ensures LexLe(a, b) || LexLe(b, a)
  {
    if |a| > 0 && |b| > 0 && a[0] == b[0] {
      LexLeTotal(a[1..], b[1..]);
    }
  }

  lemma {:induction false} LexLeTransitive(a: Key, b: Key, c: Key)
    requires LexLe(a, b) && LexLe(b, c)
    ensures LexLe(a, c)
  {
    if |a| > 0 && a[0] == b[0] && b[0] == c[0] {
      LexLeTransitive(a[1..], b[1..], c[1..]);
    }
  }

  lemma LexLeIsTotalPreorder()
    ensures IsTotalPreorder(LexLe)
  {
    forall a, b ensures LexLe(a, b) || LexLe(b, a) {
      LexLeTotal(a, b);
    }
    forall a, b, c | LexLe(a, b) && LexLe(b, c) ensures LexLe(a, c) {
      LexLeTransitive(a, b, c);
    }
  }

  /** `sorted(fields)`: the requested names in ascending order, duplicates kept. */
  function SortedFields(fields: seq<Key>): (r: seq<Key>)
    ensures SortedBy(r, LexLe)
    ensures multiset(r) == multiset(fields)
  {
    LexLeIsTotalPreorder();
    Sort(fields, LexLe)
  }

  /** The pairs that reach the serialiser: every key both requested and present. */
  function Requested<V>(data: map<Key, V>, fields: seq<Key>): map<Key, V> {
    map k | k in data && k in fields :: data[k]
  }

  /**
   * `{key: data[key] for key in keys if key in data}`: walks `keys` in order
   * and adds each key the record holds; an absent key is skipped.
   */
  function Pick<V>(data: map<Key, V>, keys: seq<Key>): (picked: map<Key, V>)
    ensures picked == Requested(data, keys)
  {
    if keys == [] then map[]
    else
      var init := Pick(data, keys[..|keys| - 1]);
      var k := keys[|keys| - 1];
      assert forall j :: j in keys <==> j in keys[..|keys| - 1] || j == k by {
        assert keys == keys[..|keys| - 1] + [k];
      }
      if k in data then init[k := data[k]] else init
  }

  /**
   * `compute_checksum(data, fields)`: the hex digest of the canonical
   * serialisation of the requested fields the record holds.
   */
  function ComputeChecksum<V>(data: map<Key, V>, fields: seq<Key>,
                              dumps: map<Key, V> -> string,
                              sha256Hex: string -> string): (digest: string)
    ensures digest == sha256Hex(dumps(Requested(data, fields)))
  {
    var sorted := SortedFields(fields);
    assert forall k :: k in sorted <==> k in fields by {
      forall k ensures k in sorted <==> k in fields {
        assert k in sorted <==> k in multiset(sorted);
        assert k in fields <==> k in multiset(fields);
      }
    }
    assert Requested(data, sorted) == Requested(data, fields);
    sha256Hex(dumps(Pick(data, sorted)))
  }

  /** Only the key/value pairs both requested and present reach the hash: a
   * record that agrees with another on those gives the same digest. */
  lemma ChecksumDependsOnlyOnRequestedFields<V>(d1: map<Key, V>, d2: map<Key, V>, fields: seq<Key>,
                                                dumps: map<Key, V> -> string,
                                                sha256Hex: string -> string)
    requires forall k :: k in fields ==> (k in d1 <==> k in d2)
    requires forall k :: k in fields && k in d1 && k in d2 ==> d1[k] == d2[k]
    ensures ComputeChecksum(d1, fields, dumps, sha256Hex) == ComputeChecksum(d2, fields, dumps, sha256Hex)
  {
    assert Requested(d1, fields) == Requested(d2, fields);
  }

  /** The caller's order of the field names, and repetitions among them, do not matter. */
  lemma ChecksumIgnoresFieldOrder<V>(data: map<Key, V>, f1: seq<Key>, f2: seq<Key>,
                                     dumps: map<Key, V> -> string,
                                     sha256Hex: string -> string)
    requires forall k :: k in f1 <==> k in f2
    ensures ComputeChecksum(data, f1, dumps, sha256Hex) == ComputeChecksum(data, f2, dumps, sha256Hex)
  {
    assert Requested(data, f1) == Requested(data, f2);
  }

  /** Changing or adding a key that is not requested leaves the checksum unchanged. */
  lemma ChecksumIgnoresUnrequestedKey<V>(data: map<Key, V>, fields: seq<Key>, k: Key, v: V,
                                         dumps: map<Key, V> -> string,
                                         sha256Hex: string -> string)
    requires k !in fields
    ensures ComputeChecksum(data[k := v], fields, dumps, sha256Hex) == ComputeChecksum(data, fields, dumps, sha256Hex)
  {
    ChecksumDependsOnlyOnRequestedFields(data[k := v], data, fields, dumps, sha256Hex);
  }

  /** A requested field the record lacks is skipped, never defaulted: asking
   * for it changes nothing. */
  lemma ChecksumSkipsMissingField<V>(data: map<Key, V>, fields: seq<Key>, k: Key,
                                     dumps: map<Key, V> -> string,
                                     sha256Hex: string -> string)
    requires k !in data
    ensures ComputeChecksum(data, fields + [k], dumps, sha256Hex) == ComputeChecksum(data, fields, dumps, sha256Hex)
  {
    assert Requested(data, fields + [k]) == Requested(data, fields);
  }
}
