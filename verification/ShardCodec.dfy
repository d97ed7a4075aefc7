/** The on-disk format of a shard (fibre/store_codec.go): writer, size and reader. */
module ShardCodec {
  import opened Basics

  const WORD := 0x1_0000_0000
  const VERSION := 1
  const LENGTH_LIMIT := 0x4000_0000
  const MAX_ROWS := 0x1_0000
  const MAX_SEGMENTS := 64

  type Word = x: int | 0 <= x < WORD

  type Bytes = seq<Byte>

  /** Absent byte strings and proofs are the empty ones; a row itself may be missing. */
  datatype Row = Missing | Row(index: Word, data: Bytes, proof: seq<Bytes>)

  datatype Shard = Shard(rlcs: Bytes, rows: seq<Row>)

  predicate Complete(shard: Shard) {
    forall i :: 0 <= i < |shard.rows| ==> shard.rows[i].Row?
  }

  // ----- the format

  /** Big-endian, four bytes. */
  function PutWord(n: Word): (b: Bytes)
    ensures |b| == 4
  {
    [n / 0x100_0000, n / 0x1_0000 % 0x100, n / 0x100 % 0x100, n % 0x100]
  }

  function GetWord(b: Bytes): Word
    requires |b| == 4
  {
    ((b[0] as int * 0x100 + b[1]) * 0x100 + b[2]) * 0x100 + b[3]
  }

  lemma WordRoundTrip(n: Word)
    ensures GetWord(PutWord(n)) == n
  {
    var hi := n / 0x100;
    var top := hi / 0x100;
    assert n / 0x1_0000 == top && n / 0x100_0000 == top / 0x100;
  }

  lemma WordDigits(a: int, b: int, c: int, d: int)
    requires 0 <= a < 256 && 0 <= b < 256 && 0 <= c < 256 && 0 <= d < 256
    ensures var n := ((a * 0x100 + b) * 0x100 + c) * 0x100 + d;
      n / 0x100_0000 == a && n / 0x1_0000 % 0x100 == b && n / 0x100 % 0x100 == c && n % 0x100 == d
  {
    var n := ((a * 0x100 + b) * 0x100 + c) * 0x100 + d;
    assert n == a * 0x100_0000 + (b * 0x1_0000 + c * 0x100 + d);
    assert n / 0x1_0000 == a * 0x100 + b;
    assert n / 0x100 == (a * 0x100 + b) * 0x100 + c;
  }

  lemma WordIsCanonical(b: Bytes)
    requires |b| == 4
    ensures PutWord(GetWord(b)) == b
  {
    WordDigits(b[0], b[1], b[2], b[3]);
  }

  /** A length prefix keeps only the low 32 bits. */
  function PutLength(n: nat): (b: Bytes)
    ensures |b| == 4
  {
    PutWord(n % WORD)
  }

  function PutBytes(b: Bytes): Bytes {
    PutLength(|b|) + b
  }

  /** The items one after the other, each as `put` writes it. */
  function PutMany<T>(put: T -> Bytes, items: seq<T>): Bytes {
    if items == [] then [] else put(items[0]) + PutMany(put, items[1..])
  }

  function PutRow(row: Row): Bytes {
    match row
    case Missing => []
    case Row(index, data, proof) =>
      PutWord(index) + PutBytes(data) + PutLength(|proof|) + PutMany(PutBytes, proof)
  }

  function Encode(shard: Shard): Bytes
    requires Complete(shard)
  {
    PutWord(VERSION) + PutBytes(shard.rlcs) + PutLength(|shard.rows|) + PutMany(PutRow, shard.rows)
  }

  // ----- reading, on values

  /** A value read from the front of a stream, and the rest of the stream. */
  datatype Parsed<T> = Failed | Parsed(value: T, rest: Bytes)

  function ReadWord(b: Bytes): Parsed<Word> {
    if |b| < 4 then Failed else Parsed(GetWord(b[..4]), b[4..])
  }

  function ReadBytes(b: Bytes): Parsed<Bytes> {
    var n := ReadWord(b);
    if n.Failed? || n.value > LENGTH_LIMIT || n.value > |n.rest| then Failed
    else Parsed(n.rest[..n.value], n.rest[n.value..])
  }

  function ReadMany<T>(read: Bytes -> Parsed<T>, b: Bytes, n: nat): Parsed<seq<T>>
    decreases n
  {
    if n == 0 then
      Parsed([], b)
    else
      var first := read(b);
      if first.Failed? then Failed else Prepend([first.value], ReadMany(read, first.rest, n - 1))
  }

  /** Puts values read earlier in front of what the rest of the stream yields. */
  function Prepend<T>(values: seq<T>, p: Parsed<seq<T>>): (r: Parsed<seq<T>>)
    ensures values == [] ==> r == p
    ensures p.Parsed? && p.value == [] ==> r == Parsed(values, p.rest)
  {
    if p.Failed? then
      Failed
    else
      assert [] + p.value == p.value && values + [] == values;
      Parsed(values + p.value, p.rest)
  }

  function ReadRow(b: Bytes): Parsed<Row> {
    var index := ReadWord(b);
    if index.Failed? then Failed else
      var data := ReadBytes(index.rest);
      if data.Failed? then Failed else
        var count := ReadWord(data.rest);
        if count.Failed? || count.value > MAX_SEGMENTS then Failed else
          var proof := ReadMany(ReadBytes, count.rest, count.value);
          if proof.Failed? then Failed else Parsed(Row(index.value, data.value, proof.value), proof.rest)
  }

  function Decode(b: Bytes): Parsed<Shard> {
    var version := ReadWord(b);
    if version.Failed? || version.value != VERSION then Failed else
      var rlcs := ReadBytes(version.rest);
      if rlcs.Failed? then Failed else
        var count := ReadWord(rlcs.rest);
        if count.Failed? || count.value > MAX_ROWS then Failed else
          var rows := ReadMany(ReadRow, count.rest, count.value);
          if rows.Failed? then Failed else Parsed(Shard(rlcs.value, rows.value), rows.rest)
  }

  // ----- the reader's limits

  predicate Short(b: Bytes) {
    |b| <= LENGTH_LIMIT
  }

  predicate AllShort(segments: seq<Bytes>) {
    forall i :: 0 <= i < |segments| ==> Short(segments[i])
  }

  predicate RowWithin(row: Row) {
    row.Row? && Short(row.data) && |row.proof| <= MAX_SEGMENTS && AllShort(row.proof)
  }

  predicate WithinLimits(shard: Shard) {
    Short(shard.rlcs) && |shard.rows| <= MAX_ROWS && forall i :: 0 <= i < |shard.rows| ==> RowWithin(shard.rows[i])
  }

  // ----- repeated items

  /** Reading gives back what was written, for the items that satisfy `ok`. */
  ghost predicate Inverts<T(!new)>(read: Bytes -> Parsed<T>, put: T -> Bytes, ok: T -> bool) {
    forall x, rest :: ok(x) ==> read(put(x) + rest) == Parsed(x, rest)
  }

  /** Whatever can be read satisfies `ok` and is what would have been written. */
  ghost predicate Canonical<T(!new)>(read: Bytes -> Parsed<T>, put: T -> Bytes, ok: T -> bool) {
    forall b :: read(b).Parsed? ==> ok(read(b).value) && b == put(read(b).value) + read(b).rest
  }

  lemma {:induction false} ManyBack<T(!new)>(read: Bytes -> Parsed<T>, put: T -> Bytes, ok: T -> bool, items: seq<T>, rest: Bytes)
    requires Inverts(read, put, ok) && forall i :: 0 <= i < |items| ==> ok(items[i])
    ensures ReadMany(read, PutMany(put, items) + rest, |items|) == Parsed(items, rest)
  {
    if items == [] {
      assert PutMany(put, items) + rest == rest;
    } else {
      var tail := PutMany(put, items[1..]) + rest;
      assert PutMany(put, items) + rest == put(items[0]) + tail;
      ManyBack(read, put, ok, items[1..], rest);
      assert [items[0]] + items[1..] == items;
    }
  }

  lemma {:induction false} ManyWereWritten<T(!new)>(read: Bytes -> Parsed<T>, put: T -> Bytes, ok: T -> bool, b: Bytes, n: nat)
    requires Canonical(read, put, ok) && ReadMany(read, b, n).Parsed?
    ensures var p := ReadMany(read, b, n);
      |p.value| == n && b == PutMany(put, p.value) + p.rest && forall i :: 0 <= i < n ==> ok(p.value[i])
    decreases n
  {
    if n == 0 {
      assert PutMany(put, []) + b == b;
    } else {
      var first := read(b);
      ManyWereWritten(read, put, ok, first.rest, n - 1);
      var others, p := ReadMany(read, first.rest, n - 1), ReadMany(read, b, n);
      assert p.value[1..] == others.value;
      assert b == put(first.value) + (PutMany(put, others.value) + p.rest);
    }
  }

  lemma {:induction false} ManyAppend<T>(put: T -> Bytes, items: seq<T>, item: T)
    ensures PutMany(put, items + [item]) == PutMany(put, items) + put(item)
  {
    if items == [] {
      assert [] + [item] == [item];
    } else {
      ManyAppend(put, items[1..], item);
      assert (items + [item])[1..] == items[1..] + [item];
    }
  }

  lemma ManyStep<T>(put: T -> Bytes, items: seq<T>, i: nat)
    requires i < |items|
    ensures PutMany(put, items[..i + 1]) == PutMany(put, items[..i]) + put(items[i])
  {
    ManyAppend(put, items[..i], items[i]);
    assert items[..i + 1] == items[..i] + [items[i]];
  }

  lemma ReadManyStep<T>(read: Bytes -> Parsed<T>, values: seq<T>, b: Bytes, n: nat)
    requires n > 0
    ensures Prepend(values, ReadMany(read, b, n)) ==
      if read(b).Failed? then Failed else Prepend(values + [read(b).value], ReadMany(read, read(b).rest, n - 1))
  {
    if read(b).Parsed? {
      var first, others := read(b).value, ReadMany(read, read(b).rest, n - 1);
      assert others.Parsed? ==> values + ([first] + others.value) == (values + [first]) + others.value;
    }
  }

  // ----- reading what was written

  lemma ReadWordBack(n: Word, rest: Bytes)
    ensures ReadWord(PutWord(n) + rest) == Parsed(n, rest)
  {
    WordRoundTrip(n);
    assert (PutWord(n) + rest)[..4] == PutWord(n) && (PutWord(n) + rest)[4..] == rest;
  }

  /** After its length prefix a byte string is read back. */
  lemma ReadAfterLength(head: Bytes, b: Bytes, rest: Bytes)
    requires |b| <= LENGTH_LIMIT && ReadWord(head + (b + rest)) == Parsed(|b|, b + rest)
    ensures ReadBytes(head + (b + rest)) == Parsed(b, rest)
  {
    assert (b + rest)[..|b|] == b && (b + rest)[|b|..] == rest;
  }

  lemma ReadBytesBack(b: Bytes, rest: Bytes)
    requires |b| <= LENGTH_LIMIT
    ensures ReadBytes(PutBytes(b) + rest) == Parsed(b, rest)
  {
    var head := PutLength(|b|);
    LengthIsWord(|b|);
    ReadWordBack(|b|, b + rest);
    ReadAfterLength(head, b, rest);
    Associate(head, b, rest);
  }

  lemma Associate(a: Bytes, b: Bytes, c: Bytes)
    ensures (a + b) + c == a + (b + c)
  {
  }

  lemma LengthIsWord(n: nat)
    requires n < WORD
    ensures PutLength(n) == PutWord(n)
  {
    assert n % WORD == n;
  }

  lemma Regroup(a: Bytes, b: Bytes, c: Bytes, d: Bytes, rest: Bytes)
    ensures a + b + c + d + rest == a + (b + (c + (d + rest)))
  {
  }

  lemma {:induction false} RowAssembled(row: Row, rest: Bytes)
    requires RowWithin(row)
    ensures PutRow(row) + rest ==
      PutWord(row.index) + (PutBytes(row.data) + (PutWord(|row.proof|) + (PutMany(PutBytes, row.proof) + rest)))
  {
    var index, length := PutWord(row.index), PutLength(|row.proof|);
    var data, proof := PutBytes(row.data), PutMany(PutBytes, row.proof);
    assert PutRow(row) == index + data + length + proof;
    Regroup(index, data, length, proof, rest);
    LengthIsWord(|row.proof|);
  }

  lemma {:induction false} ShardAssembled(shard: Shard, rest: Bytes)
    requires WithinLimits(shard)
    ensures Encode(shard) + rest ==
      PutWord(VERSION) + (PutBytes(shard.rlcs) + (PutWord(|shard.rows|) + (PutMany(PutRow, shard.rows) + rest)))
  {
    var version, length := PutWord(VERSION), PutLength(|shard.rows|);
    var rlcs, rows := PutBytes(shard.rlcs), PutMany(PutRow, shard.rows);
    assert Encode(shard) == version + rlcs + length + rows;
    Regroup(version, rlcs, length, rows, rest);
    LengthIsWord(|shard.rows|);
  }

  lemma {:induction false} BytesInvert()
    ensures Inverts(ReadBytes, PutBytes, Short)
  {
    forall b, rest | Short(b) ensures ReadBytes(PutBytes(b) + rest) == Parsed(b, rest) {
      ReadBytesBack(b, rest);
    }
  }

  lemma {:induction false} ReadRowBack(row: Row, rest: Bytes)
    requires RowWithin(row)
    ensures ReadRow(PutRow(row) + rest) == Parsed(row, rest)
  {
    var segments := PutMany(PutBytes, row.proof) + rest;
    var count := PutWord(|row.proof|) + segments;
    var data := PutBytes(row.data) + count;
    RowAssembled(row, rest);
    ReadWordBack(row.index, data);
    ReadBytesBack(row.data, count);
    ReadWordBack(|row.proof|, segments);
    assert ReadMany(ReadBytes, segments, |row.proof|) == Parsed(row.proof, rest) by {
      BytesInvert();
      ManyBack(ReadBytes, PutBytes, Short, row.proof, rest);
    }
  }

  lemma {:induction false} RowsInvert()
    ensures Inverts(ReadRow, PutRow, RowWithin)
  {
    forall row, rest | RowWithin(row) ensures ReadRow(PutRow(row) + rest) == Parsed(row, rest) {
      ReadRowBack(row, rest);
    }
  }

  /** Reading a written shard gives it back and leaves what follows. */
  lemma {:induction false} DecodeInvertsEncode(shard: Shard, rest: Bytes)
    requires WithinLimits(shard)
    ensures Decode(Encode(shard) + rest) == Parsed(shard, rest)
  {
    var rows := PutMany(PutRow, shard.rows) + rest;
    var count := PutWord(|shard.rows|) + rows;
    var rlcs := PutBytes(shard.rlcs) + count;
    ShardAssembled(shard, rest);
    ReadWordBack(VERSION, rlcs);
    ReadBytesBack(shard.rlcs, count);
    ReadWordBack(|shard.rows|, rows);
    assert ReadMany(ReadRow, rows, |shard.rows|) == Parsed(shard.rows, rest) by {
      RowsInvert();
      ManyBack(ReadRow, PutRow, RowWithin, shard.rows, rest);
    }
  }

  // ----- what can be read was written

  lemma WordWasWritten(b: Bytes)
    requires ReadWord(b).Parsed?
    ensures var p := ReadWord(b); b == PutWord(p.value) + p.rest
  {
    WordIsCanonical(b[..4]);
    assert b == b[..4] + b[4..];
  }

  lemma BytesWereWritten(b: Bytes)
    requires ReadBytes(b).Parsed?
    ensures |ReadBytes(b).value| <= LENGTH_LIMIT
    ensures b == PutBytes(ReadBytes(b).value) + ReadBytes(b).rest
  {
    var n, p := ReadWord(b), ReadBytes(b);
    WordWasWritten(b);
    assert n.rest == p.value + p.rest && n.value == |p.value|;
    LengthIsWord(|p.value|);
    Associate(PutLength(|p.value|), p.value, p.rest);
  }

  lemma {:induction false} BytesAreCanonical()
    ensures Canonical(ReadBytes, PutBytes, Short)
  {
    forall b | ReadBytes(b).Parsed? ensures Short(ReadBytes(b).value) && b == PutBytes(ReadBytes(b).value) + ReadBytes(b).rest {
      BytesWereWritten(b);
    }
  }

  lemma {:induction false} RowWasWritten(b: Bytes)
    requires ReadRow(b).Parsed?
    ensures RowWithin(ReadRow(b).value)
    ensures b == PutRow(ReadRow(b).value) + ReadRow(b).rest
  {
    WordWasWritten(b);
    var index := ReadWord(b);
    BytesWereWritten(index.rest);
    var data := ReadBytes(index.rest);
    WordWasWritten(data.rest);
    var count := ReadWord(data.rest);
    BytesAreCanonical();
    ManyWereWritten(ReadBytes, PutBytes, Short, count.rest, count.value);
    RowAssembled(ReadRow(b).value, ReadRow(b).rest);
  }

  lemma {:induction false} RowsAreCanonical()
    ensures Canonical(ReadRow, PutRow, RowWithin)
  {
    forall b | ReadRow(b).Parsed? ensures RowWithin(ReadRow(b).value) && b == PutRow(ReadRow(b).value) + ReadRow(b).rest {
      RowWasWritten(b);
    }
  }

  /** Main result: the format is canonical.  Whatever the reader accepts is exactly the encoding of the
      shard it returns, followed by the unread rest, and that shard is within the limits. */
  lemma {:induction false} DecodedWasEncoded(b: Bytes)
    requires Decode(b).Parsed?
    ensures WithinLimits(Decode(b).value)
    ensures b == Encode(Decode(b).value) + Decode(b).rest
  {
    WordWasWritten(b);
    var version := ReadWord(b);
    BytesWereWritten(version.rest);
    var rlcs := ReadBytes(version.rest);
    WordWasWritten(rlcs.rest);
    var count := ReadWord(rlcs.rest);
    RowsAreCanonical();
    ManyWereWritten(ReadRow, PutRow, RowWithin, count.rest, count.value);
    ShardAssembled(Decode(b).value, Decode(b).rest);
  }

  /** Main result: reading what was written returns the same shard and leaves any suffix untouched,
      exactly for the shards within the reader's limits. */
  lemma {:induction false} RoundTripExactly(shard: Shard, rest: Bytes)
    requires Complete(shard)
    ensures Decode(Encode(shard) + rest) == Parsed(shard, rest) <==> WithinLimits(shard)
  {
    if WithinLimits(shard) {
      DecodeInvertsEncode(shard, rest);
    } else if Decode(Encode(shard) + rest).Parsed? {
      DecodedWasEncoded(Encode(shard) + rest);
    }
  }

  // ----- the writer

  /** An output stream. */
  class Writer {
    var out: Bytes

    constructor ()
      ensures out == []
    {
      out := [];
    }

    method Write(b: Bytes)
      modifies this
      ensures out == old(out) + b
    {
      out := out + b;
    }

    method WriteRow(row: Row)
      requires row.Row?
      modifies this
      ensures out == old(out) + PutRow(row)
    {
      Write(PutWord(row.index) + PutLength(|row.data|));
      Write(row.data);
      Write(PutLength(|row.proof|));
      ghost var header := out;
      for i := 0 to |row.proof|
        invariant out == header + PutMany(PutBytes, row.proof[..i])
      {
        ManyStep(PutBytes, row.proof, i);
        Write(PutLength(|row.proof[i]|));
        Write(row.proof[i]);
        Associate(header + PutMany(PutBytes, row.proof[..i]), PutLength(|row.proof[i]|), row.proof[i]);
        Associate(header, PutMany(PutBytes, row.proof[..i]), PutBytes(row.proof[i]));
      }
      assert row.proof[..|row.proof|] == row.proof;
    }

    /** Writes the rows; stops with an error at a missing one. */
    method WriteRows(rows: seq<Row>) returns (ok: bool)
      modifies this
      ensures ok <==> forall i :: 0 <= i < |rows| ==> rows[i].Row?
      ensures ok ==> out == old(out) + PutMany(PutRow, rows)
    {
      for i := 0 to |rows|
        invariant forall j :: 0 <= j < i ==> rows[j].Row?
        invariant out == old(out) + PutMany(PutRow, rows[..i])
      {
        if rows[i].Missing? {
          return false;
        }
        ManyStep(PutRow, rows, i);
        WriteRow(rows[i]);
        Associate(old(out), PutMany(PutRow, rows[..i]), PutRow(rows[i]));
      }
      assert rows[..|rows|] == rows;
      return true;
    }

    method WriteShard(shard: Shard) returns (ok: bool)
      modifies this
      ensures ok <==> Complete(shard)
      ensures ok ==> out == old(out) + Encode(shard)
    {
      Write(PutWord(VERSION) + PutLength(|shard.rlcs|));
      Write(shard.rlcs);
      Write(PutLength(|shard.rows|));
      assert out == old(out) + (PutWord(VERSION) + PutBytes(shard.rlcs) + PutLength(|shard.rows|));
      ok := WriteRows(shard.rows);
    }
  }

  method RowBinarySize(row: Row) returns (size: nat)
    requires row.Row?
    ensures size == |PutRow(row)|
  {
    size := 4 + 4 + |row.data| + 4;
    for i := 0 to |row.proof|
      invariant size == 4 + 4 + |row.data| + 4 + |PutMany(PutBytes, row.proof[..i])|
    {
      ManyStep(PutBytes, row.proof, i);
      size := size + 4 + |row.proof[i]|;
    }
    assert row.proof[..|row.proof|] == row.proof;
  }

  /** The number of bytes a shard occupies, without writing it. */
  method ShardBinarySize(shard: Shard) returns (size: nat)
    requires Complete(shard)
    ensures size == |Encode(shard)|
  {
    size := 4 + 4 + |shard.rlcs| + 4;
    for i := 0 to |shard.rows|
      invariant size == 4 + 4 + |shard.rlcs| + 4 + |PutMany(PutRow, shard.rows[..i])|
    {
      ManyStep(PutRow, shard.rows, i);
      var row := RowBinarySize(shard.rows[i]);
      size := size + row;
    }
    assert shard.rows[..|shard.rows|] == shard.rows;
  }

  // ----- the reader

  /** An input stream. */
  class Reader {
    var rest: Bytes

    constructor (b: Bytes)
      ensures rest == b
    {
      rest := b;
    }

    method Word() returns (ok: bool, n: Word)
      modifies this
      ensures ok <==> ReadWord(old(rest)).Parsed?
      ensures ok ==> ReadWord(old(rest)) == Parsed(n, rest)
    {
      if |rest| < 4 {
        return false, 0;
      }
      n := GetWord(rest[..4]);
      rest := rest[4..];
      return true, n;
    }

    method LengthPrefixed() returns (ok: bool, b: Bytes)
      modifies this
      ensures ok <==> ReadBytes(old(rest)).Parsed?
      ensures ok ==> ReadBytes(old(rest)) == Parsed(b, rest)
    {
      var n;
      ok, n := Word();
      if !ok || n > LENGTH_LIMIT || n > |rest| {
        return false, [];
      }
      b := rest[..n];
      rest := rest[n..];
      return true, b;
    }

    method Segments(n: nat) returns (ok: bool, segments: seq<Bytes>)
      modifies this
      ensures ok <==> ReadMany(ReadBytes, old(rest), n).Parsed?
      ensures ok ==> ReadMany(ReadBytes, old(rest), n) == Parsed(segments, rest)
    {
      segments := [];
      for i := 0 to n
        invariant Prepend(segments, ReadMany(ReadBytes, rest, n - i)) == ReadMany(ReadBytes, old(rest), n)
      {
        ReadManyStep(ReadBytes, segments, rest, n - i);
        var segment;
        ok, segment := LengthPrefixed();
        if !ok {
          return false, [];
        }
        segments := segments + [segment];
      }
      return true, segments;
    }

    method OneRow() returns (ok: bool, row: Row)
      modifies this
      ensures ok <==> ReadRow(old(rest)).Parsed?
      ensures ok ==> ReadRow(old(rest)) == Parsed(row, rest)
    {
      var index, data, count, proof;
      ok, index := Word();
      if !ok {
        return false, Missing;
      }
      ok, data := LengthPrefixed();
      if !ok {
        return false, Missing;
      }
      ok, count := Word();
      if !ok || count > MAX_SEGMENTS {
        return false, Missing;
      }
      ok, proof := Segments(count);
      return ok, Row(index, data, proof);
    }

    method Rows(n: nat) returns (ok: bool, rows: seq<Row>)
      modifies this
      ensures ok <==> ReadMany(ReadRow, old(rest), n).Parsed?
      ensures ok ==> ReadMany(ReadRow, old(rest), n) == Parsed(rows, rest)
    {
      rows := [];
      for i := 0 to n
        invariant Prepend(rows, ReadMany(ReadRow, rest, n - i)) == ReadMany(ReadRow, old(rest), n)
      {
        ReadManyStep(ReadRow, rows, rest, n - i);
        var row;
        ok, row := OneRow();
        if !ok {
          return false, [];
        }
        rows := rows + [row];
      }
      return true, rows;
    }

    /** Reads one shard from the front of the stream. */
    method ReadShard() returns (ok: bool, shard: Shard)
      modifies this
      ensures ok <==> Decode(old(rest)).Parsed?
      ensures ok ==> Decode(old(rest)) == Parsed(shard, rest)
    {
      var version, rlcs, count, rows;
      ok, version := Word();
      if !ok || version != VERSION {
        return false, Shard([], []);
      }
      ok, rlcs := LengthPrefixed();
      if !ok {
        return false, Shard([], []);
      }
      ok, count := Word();
      if !ok || count > MAX_ROWS {
        return false, Shard([], []);
      }
      ok, rows := Rows(count);
      return ok, Shard(rlcs, rows);
    }
  }
}
