/** The shard store's prune index (fibre/store.go) and the retention rule (fibre/server_upload.go).  The
    database's batches are atomic and its iteration follows key order. */
module StoreIndex {
  import opened Basics
  import opened FileBytes
  import opened StoreKeys

  /** A shard is identified by its commitment and its promise hash. */
  type Id = (seq<Byte>, seq<Byte>)

  predicate Sorted(keys: seq<string>) {
    forall i, j :: 0 <= i < j < |keys| ==> Less(keys[i], keys[j])
  }

  function KeySet(keys: seq<string>): set<string> {
    set k | k in keys
  }

  // ----- the database's key order

  function Insert(keys: seq<string>, key: string): seq<string> {
    if keys == [] then [key]
    else if keys[0] == key then keys
    else if Less(key, keys[0]) then [key] + keys
    else [keys[0]] + Insert(keys[1..], key)
  }

  function Without(keys: seq<string>, doomed: set<string>): seq<string> {
    if keys == [] then []
    else (if keys[0] in doomed then [] else [keys[0]]) + Without(keys[1..], doomed)
  }

  lemma {:induction false} SortedCons(first: string, rest: seq<string>)
    requires Sorted(rest) && forall k <- rest :: Less(first, k)
    ensures Sorted([first] + rest)
  {
    var keys := [first] + rest;
    forall i, j | 0 <= i < j < |keys| ensures Less(keys[i], keys[j]) {
      assert keys[j] == rest[j - 1];
      assert i > 0 ==> keys[i] == rest[i - 1];
    }
  }

  lemma SortedTail(keys: seq<string>)
    requires Sorted(keys) && keys != []
    ensures Sorted(keys[1..]) && forall k <- keys[1..] :: Less(keys[0], k)
  {
    forall i, j | 0 <= i < j < |keys[1..]| ensures Less(keys[1..][i], keys[1..][j]) {
      assert keys[1..][i] == keys[i + 1] && keys[1..][j] == keys[j + 1];
    }
  }

  lemma {:induction false} InsertIsSorted(keys: seq<string>, key: string)
    requires Sorted(keys)
    ensures Sorted(Insert(keys, key)) && KeySet(Insert(keys, key)) == KeySet(keys) + {key}
  {
    if keys != [] && keys[0] != key {
      SortedTail(keys);
      if Less(key, keys[0]) {
        forall k | k in keys ensures Less(key, k) {
          if k != keys[0] {
            assert k in keys[1..];
            LessIsTotal(keys[0], k);
            LessIsTransitive(key, keys[0], k);
          }
        }
        SortedCons(key, keys);
      } else {
        InsertIsSorted(keys[1..], key);
        LessIsTotal(key, keys[0]);
        var rest := Insert(keys[1..], key);
        assert KeySet(rest) == KeySet(keys[1..]) + {key};
        forall k | k in rest ensures Less(keys[0], k) {
          assert k in KeySet(rest);
        }
        SortedCons(keys[0], rest);
        assert forall k :: k in keys <==> k == keys[0] || k in keys[1..];
        assert forall k :: k in [keys[0]] + rest <==> k == keys[0] || k in KeySet(rest);
      }
    }
  }

  lemma KeySetCons(first: string, rest: seq<string>)
    ensures KeySet([first] + rest) == {first} + KeySet(rest)
  {
  }

  lemma {:induction false} WithoutMembers(keys: seq<string>, doomed: set<string>)
    ensures KeySet(Without(keys, doomed)) == KeySet(keys) - doomed
  {
    if keys != [] {
      var rest := Without(keys[1..], doomed);
      WithoutMembers(keys[1..], doomed);
      KeySetCons(keys[0], rest);
      KeySetCons(keys[0], keys[1..]);
      assert keys == [keys[0]] + keys[1..];
      assert [] + rest == rest;
    }
  }

  lemma {:induction false} WithoutIsSorted(keys: seq<string>, doomed: set<string>)
    requires Sorted(keys)
    ensures Sorted(Without(keys, doomed))
  {
    if keys != [] {
      SortedTail(keys);
      var rest := Without(keys[1..], doomed);
      WithoutIsSorted(keys[1..], doomed);
      WithoutMembers(keys[1..], doomed);
      forall k | k in rest ensures Less(keys[0], k) {
        assert k in KeySet(rest);
      }
      SortedCons(keys[0], rest);
      assert [] + rest == rest;
    }
  }

  // ----- contents and operations

  datatype Contents = Contents(index: seq<string>, markers: set<Id>, promises: set<seq<Byte>>, files: map<Id, nat>)

  /** The scan reaches `key`: its timestamp slice precedes the cutoff. */
  predicate Due(key: string, cutoff: string) {
    |key| >= 19 && Less(KeyTimestamp(key), cutoff)
  }

  /** Which keys a scan removes, and the shard each stands for. */
  type Rule = string -> Option<Id>

  /** Keys that are due but malformed are skipped. */
  function DueBefore(cutoff: string): Rule {
    key => if Due(key, cutoff) then ParsePruneKey(key) else None
  }

  function RemovedKeys(keys: seq<string>, rule: Rule): set<string> {
    set k | k in keys && rule(k).Some?
  }

  function Gone(keys: seq<string>, rule: Rule): set<Id> {
    set k | k in keys && rule(k).Some? :: rule(k).value
  }

  function HashesOf(ids: set<Id>): set<seq<Byte>> {
    set id | id in ids :: id.1
  }

  function AfterPut(s: Contents, t: Stamp, id: Id, size: nat): Contents {
    Contents(Insert(s.index, PruneKey(t, id.0, id.1)), s.markers + {id}, s.promises + {id.1}, s.files[id := size])
  }

  /** What pruning must achieve: every removed entry goes with its file, marker and promise. */
  function AfterPrune(s: Contents, rule: Rule): Contents {
    var gone := Gone(s.index, rule);
    Contents(Without(s.index, RemovedKeys(s.index, rule)), s.markers - gone, s.promises - HashesOf(gone), s.files - gone)
  }

  /** The keys under "/prune/", in order and long enough to carry a timestamp. */
  predicate ValidIndex(keys: seq<string>) {
    Sorted(keys) && forall i :: 0 <= i < |keys| ==> |keys[i]| >= 19 && keys[i][..7] == "/prune/"
  }

  /** The scan may stop at the first key that is not due. */
  lemma {:induction false} DueIsPrefix(keys: seq<string>, cutoff: string, i: nat, j: nat)
    requires ValidIndex(keys) && i <= j < |keys| && !Due(keys[i], cutoff)
    ensures !Due(keys[j], cutoff)
  {
    if i < j && Due(keys[j], cutoff) {
      var a, b := keys[i], keys[j];
      PrefixesAreOrdered(a, b, 19);
      assert a[..19] == "/prune/" + KeyTimestamp(a) && b[..19] == "/prune/" + KeyTimestamp(b);
      LessAfterPrefix("/prune/", KeyTimestamp(b), KeyTimestamp(a));
      LessIsTransitive(KeyTimestamp(b), cutoff, KeyTimestamp(a));
    }
  }

  /** What the scan has collected when it reaches position `i`. */
  datatype Batch = Batch(keys: set<string>, ids: set<Id>, pruned: nat)

  predicate Collected(keys: seq<string>, rule: Rule, i: nat, batch: Batch)
    requires i <= |keys|
  {
    && batch.keys == RemovedKeys(keys[..i], rule)
    && batch.ids == Gone(keys[..i], rule)
    && batch.pruned == |batch.keys|
  }

  function Delete(batch: Batch, key: string, id: Id): Batch {
    Batch(batch.keys + {key}, batch.ids + {id}, batch.pruned + 1)
  }

  lemma RemovedKeysStep(keys: seq<string>, rule: Rule, i: nat)
    requires Sorted(keys) && i < |keys|
    ensures keys[i] !in RemovedKeys(keys[..i], rule)
    ensures RemovedKeys(keys[..i + 1], rule) == RemovedKeys(keys[..i], rule) + if rule(keys[i]).Some? then {keys[i]} else {}
  {
    assert keys[..i + 1] == keys[..i] + [keys[i]];
    LessIsTotal(keys[i], keys[i]);
  }

  lemma GoneStep(keys: seq<string>, rule: Rule, i: nat)
    requires i < |keys|
    ensures Gone(keys[..i + 1], rule) == Gone(keys[..i], rule) + if rule(keys[i]).Some? then {rule(keys[i]).value} else {}
  {
    assert keys[..i + 1] == keys[..i] + [keys[i]];
  }

  lemma CollectedStep(keys: seq<string>, rule: Rule, i: nat, batch: Batch)
    requires Sorted(keys) && i < |keys| && Collected(keys, rule, i, batch)
    ensures Collected(keys, rule, i + 1,
      if rule(keys[i]).Some? then Delete(batch, keys[i], rule(keys[i]).value) else batch)
  {
    RemovedKeysStep(keys, rule, i);
    GoneStep(keys, rule, i);
  }

  lemma CollectedAll(keys: seq<string>, rule: Rule, i: nat, batch: Batch)
    requires i <= |keys| && Collected(keys, rule, i, batch)
    requires forall j :: i <= j < |keys| ==> rule(keys[j]).None?
    ensures Collected(keys, rule, |keys|, batch)
    ensures batch.keys == RemovedKeys(keys, rule) && batch.ids == Gone(keys, rule)
  {
    forall k | k in keys && rule(k).Some? ensures k in keys[..i] {
      var j :| 0 <= j < |keys| && keys[j] == k;
    }
    assert keys[..|keys|] == keys;
    assert Gone(keys[..i], rule) == Gone(keys, rule) && RemovedKeys(keys[..i], rule) == RemovedKeys(keys, rule);
  }

  lemma StopHere(keys: seq<string>, cutoff: string, i: nat)
    requires ValidIndex(keys) && i < |keys| && !Due(keys[i], cutoff)
    ensures forall j :: i <= j < |keys| ==> DueBefore(cutoff)(keys[j]).None?
  {
    forall j | i <= j < |keys| ensures DueBefore(cutoff)(keys[j]).None? {
      DueIsPrefix(keys, cutoff, i, j);
    }
  }

  lemma RemoveFile(files: map<Id, nat>, id: Id)
    ensures Bytes(files) == Bytes(files - {id}) + if id in files then files[id] else 0
  {
    if id in files {
      BytesWithout(files, id);
    } else {
      assert files - {id} == files;
    }
  }

  class Store {
    var index: seq<string>
    var markers: set<Id>
    var promises: set<seq<Byte>>
    var files: map<Id, nat>

    ghost predicate Valid()
      reads this
    {
      ValidIndex(index)
    }

    ghost function Now(): Contents
      reads this
    {
      Contents(index, markers, promises, files)
    }

    constructor ()
      ensures Valid() && Now() == Contents([], {}, {}, map[])
    {
      index := [];
      markers := {};
      promises := {};
      files := map[];
    }

    /** Publishes the file, then commits its metadata in one batch. */
    method Put(t: Stamp, id: Id, size: nat)
      requires Valid()
      modifies this
      ensures Valid() && Now() == AfterPut(old(Now()), t, id, size)
    {
      files := files[id := size];
      promises := promises + {id.1};
      markers := markers + {id};
      var key := PruneKey(t, id.0, id.1);
      KeyShape(t, id.0, id.1);
      InsertIsValid(index, key);
      index := Insert(index, key);
    }

    method Has(id: Id) returns (has: bool)
      ensures has <==> id in markers && id in files
    {
      if id !in markers {
        return false;
      }
      return id in files;
    }

    /** Removes a shard file, if there is one, and returns its size. */
    method RemoveShardFile(id: Id) returns (size: nat)
      modifies this`files
      ensures files == old(files) - {id} && size + Bytes(files) == Bytes(old(files))
    {
      RemoveFile(files, id);
      size := if id in files then files[id] else 0;
      files := files - {id};
    }

    /** Scans the index in order up to the first key that is not due, removing files and collecting what
        the batch will delete. */
    method Scan(cutoff: string) returns (batch: Batch, freed: nat)
      requires Valid()
      modifies this`files
      ensures var rule := DueBefore(cutoff);
        batch.keys == RemovedKeys(index, rule) && batch.ids == Gone(index, rule) && batch.pruned == |batch.keys|
      ensures files == old(files) - batch.ids && freed + Bytes(files) == Bytes(old(files))
    {
      ghost var rule := DueBefore(cutoff);
      batch, freed := Batch({}, {}, 0), 0;
      var i := 0;
      while i < |index|
        invariant i <= |index| && Collected(index, rule, i, batch)
        invariant files == old(files) - batch.ids && freed + Bytes(files) == Bytes(old(files))
      {
        if !Due(index[i], cutoff) {
          StopHere(index, cutoff, i);
          break;
        }
        CollectedStep(index, rule, i, batch);
        var parsed := ParsePruneKey(index[i]);
        if parsed.Some? {
          var size := RemoveShardFile(parsed.value);
          batch, freed := Delete(batch, index[i], parsed.value), freed + size;
        }
        i := i + 1;
      }
      CollectedAll(index, rule, i, batch);
    }

    /** Removes every due entry with its file, then deletes the metadata in one batch. */
    method PruneBefore(before: Stamp) returns (pruned: nat, freed: nat)
      requires Valid()
      modifies this
      ensures Valid() && Now() == AfterPrune(old(Now()), DueBefore(FormatTimestamp(before)))
      ensures pruned == |RemovedKeys(old(index), DueBefore(FormatTimestamp(before)))|
      ensures freed == Bytes(old(files)) - Bytes(files)
    {
      var batch;
      batch, freed := Scan(FormatTimestamp(before));
      pruned := batch.pruned;
      WithoutIsValid(index, batch.keys);
      index := Without(index, batch.keys);
      markers := markers - batch.ids;
      promises := promises - HashesOf(batch.ids);
    }
  }

  lemma KeyShape(t: Stamp, commitment: seq<Byte>, hash: seq<Byte>)
    ensures var key := PruneKey(t, commitment, hash); |key| >= 19 && key[..7] == "/prune/"
  {
  }

  lemma InsertIsValid(keys: seq<string>, key: string)
    requires ValidIndex(keys) && |key| >= 19 && key[..7] == "/prune/"
    ensures ValidIndex(Insert(keys, key)) && KeySet(Insert(keys, key)) == KeySet(keys) + {key}
  {
    InsertIsSorted(keys, key);
    var longer := Insert(keys, key);
    forall i | 0 <= i < |longer| ensures |longer[i]| >= 19 && longer[i][..7] == "/prune/" {
      assert longer[i] in KeySet(longer);
    }
  }

  lemma WithoutIsValid(keys: seq<string>, doomed: set<string>)
    requires ValidIndex(keys)
    ensures ValidIndex(Without(keys, doomed)) && KeySet(Without(keys, doomed)) == KeySet(keys) - doomed
  {
    WithoutIsSorted(keys, doomed);
    WithoutMembers(keys, doomed);
    var rest := Without(keys, doomed);
    forall i | 0 <= i < |rest| ensures |rest[i]| >= 19 && rest[i][..7] == "/prune/" {
      assert rest[i] in KeySet(rest);
    }
  }

  // ----- exactly the earlier minutes

  /** Main result: up to year 9999 pruning removes an entry exactly when its minute precedes the cutoff's. */
  lemma {:induction false} RemovedExactlyWhenEarlier(t: Stamp, commitment: seq<Byte>, hash: seq<Byte>, before: Stamp)
    requires ValidStamp(t) && ValidStamp(before) && t.year < 10000 && before.year < 10000
    requires |commitment| == COMMITMENT_SIZE
    ensures DueBefore(FormatTimestamp(before))(PruneKey(t, commitment, hash)) ==
      if Before(t, before) then Some((commitment, hash)) else None
  {
    ParseInvertsPruneKey(t, commitment, hash);
    KeyTimestampIs(t, commitment, hash);
    KeyShape(t, commitment, hash);
    TimestampOrder(t, before);
  }
}
