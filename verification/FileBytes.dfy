/** Total size of a set of files. */
module FileBytes {

  ghost function Bytes<K>(files: map<K, nat>): nat {
    if files == map[] then 0 else
      var k :| k in files;
      files[k] + Bytes(files - {k})
  }

  lemma {:induction false} BytesWithout<K>(files: map<K, nat>, k: K)
    requires k in files
    ensures Bytes(files) == files[k] + Bytes(files - {k})
    decreases |files|
  {
    var c :| c in files && Bytes(files) == files[c] + Bytes(files - {c});
    if c != k {
      BytesWithout(files - {c}, k);
      BytesWithout(files - {k}, c);
      assert files - {c} - {k} == files - {k} - {c};
    }
  }

  lemma BytesWith<K>(files: map<K, nat>, k: K, size: nat)
    requires k !in files
    ensures Bytes(files[k := size]) == Bytes(files) + size
  {
    BytesWithout(files[k := size], k);
    assert files[k := size] - {k} == files;
  }

  function Only<K>(files: map<K, nat>, keys: set<K>): map<K, nat> {
    map k | k in files && k in keys :: files[k]
  }

  lemma SplitAt<K>(files: map<K, nat>, keys: set<K>, k: K)
    requires k in files
    ensures k in keys ==>
      k in Only(files, keys) && Only(files, keys) - {k} == Only(files - {k}, keys) && files - keys == files - {k} - keys
    ensures k !in keys ==>
      k in files - keys && files - keys - {k} == files - {k} - keys && Only(files, keys) == Only(files - {k}, keys)
  {
  }

  lemma {:induction false} BytesSplit<K>(files: map<K, nat>, keys: set<K>)
    ensures Bytes(files) == Bytes(files - keys) + Bytes(Only(files, keys))
    decreases |files|
  {
    if files == map[] {
      assert files - keys == files && Only(files, keys) == files;
    } else {
      var k :| k in files;
      BytesWithout(files, k);
      BytesSplit(files - {k}, keys);
      SplitAt(files, keys, k);
      BytesWithout(if k in keys then Only(files, keys) else files - keys, k);
    }
  }
}
