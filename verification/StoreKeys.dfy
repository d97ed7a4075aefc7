/** Keys of the shard store's prune index (fibre/store.go): timestamps, hex, building and parsing. */
module StoreKeys {
  import opened Basics

  const COMMITMENT_SIZE := 32

  // ----- order of keys

  /** The database's order of keys: bytewise lexicographic. */
  predicate Less(a: string, b: string) {
    b != "" && (a == "" || a[0] < b[0] || (a[0] == b[0] && Less(a[1..], b[1..])))
  }

  predicate AtMost(a: string, b: string) {
    !Less(b, a)
  }

  lemma {:induction false} LessIsTotal(a: string, b: string)
    ensures Less(a, b) || Less(b, a) || a == b
    ensures !(Less(a, b) && Less(b, a))
  {
    if a != "" && b != "" && a[0] == b[0] {
      LessIsTotal(a[1..], b[1..]);
      assert a == [a[0]] + a[1..] && b == [b[0]] + b[1..];
    }
  }

  lemma {:induction false} LessIsTransitive(a: string, b: string, c: string)
    requires Less(a, b) && AtMost(b, c)
    ensures Less(a, c)
  {
    LessIsTotal(b, c);
    if b != c && a != "" && a[0] == b[0] == c[0] {
      LessIsTotal(b[1..], c[1..]);
      LessIsTransitive(a[1..], b[1..], c[1..]);
    }
  }

  lemma {:induction false} LessAfterPrefix(p: string, a: string, b: string)
    ensures Less(p + a, p + b) == Less(a, b)
  {
    if p == "" {
      assert p + a == a && p + b == b;
    } else {
      assert (p + a)[1..] == p[1..] + a && (p + b)[1..] == p[1..] + b;
      LessAfterPrefix(p[1..], a, b);
    }
  }

  /** Equally long prefixes of ordered keys are ordered. */
  lemma {:induction false} PrefixesAreOrdered(a: string, b: string, n: nat)
    requires Less(a, b) && n <= |a| && n <= |b|
    ensures AtMost(a[..n], b[..n])
  {
    if n > 0 && a[0] == b[0] {
      PrefixesAreOrdered(a[1..], b[1..], n - 1);
      assert a[..n][1..] == a[1..][..n - 1] && b[..n][1..] == b[1..][..n - 1];
    }
  }

  /** For equally long strings a later character matters only if the earlier ones agree. */
  lemma {:induction false} LessAppend(a: string, b: string, x: char, y: char)
    requires |a| == |b|
    ensures Less(a + [x], b + [y]) <==> Less(a, b) || (a == b && x < y)
  {
    if a != "" {
      LessAppend(a[1..], b[1..], x, y);
      assert (a + [x])[1..] == a[1..] + [x] && (b + [y])[1..] == b[1..] + [y];
      assert a == [a[0]] + a[1..] && b == [b[0]] + b[1..];
    }
  }

  // ----- timestamps

  /** A moment in UTC with minute precision. */
  datatype Stamp = Stamp(year: nat, month: nat, day: nat, hour: nat, minute: nat)

  predicate ValidStamp(t: Stamp) {
    1 <= t.month <= 12 && 1 <= t.day <= 31 && t.hour < 24 && t.minute < 60
  }

  predicate Before(a: Stamp, b: Stamp) {
    a.year < b.year || (a.year == b.year &&
      (a.month < b.month || (a.month == b.month &&
        (a.day < b.day || (a.day == b.day &&
          (a.hour < b.hour || (a.hour == b.hour && a.minute < b.minute)))))))
  }

  function Digit(n: nat): char
    requires n < 10
  {
    ('0' as int + n) as char
  }

  /** The last `width` decimal digits of `n`, zero-padded. */
  function Pad(n: nat, width: nat): (s: string)
    ensures |s| == width && forall i :: 0 <= i < |s| ==> '0' <= s[i] <= '9'
  {
    if width == 0 then "" else Pad(n / 10, width - 1) + [Digit(n % 10)]
  }

  function Width(n: nat): nat {
    if n < 10 then 1 else 1 + Width(n / 10)
  }

  lemma FourDigitYear(year: nat)
    requires year < 10000
    ensures Width(year) <= 4
  {
    if year >= 10 {
      var tens := year / 10;
      if tens >= 10 {
        assert Width(tens / 10) <= 2;
      }
    }
  }

  /** YYYYMMDDHHmm, with the year padded to at least four digits. */
  function FormatTimestamp(t: Stamp): (s: string)
    ensures |s| >= 12 && forall i :: 0 <= i < |s| ==> '0' <= s[i] <= '9'
  {
    Pad(t.year, Max(4, Width(t.year))) + Pad(t.month, 2) + Pad(t.day, 2) + Pad(t.hour, 2) + Pad(t.minute, 2)
  }

  function Max(a: nat, b: nat): nat {
    if a < b then b else a
  }

  function Pow10(n: nat): (r: nat)
    ensures r > 0
  {
    if n == 0 then 1 else 10 * Pow10(n - 1)
  }

  /** Order of padded numbers is numeric order. */
  lemma {:induction false} PadOrder(n: nat, m: nat, width: nat)
    requires n < Pow10(width) && m < Pow10(width)
    ensures Less(Pad(n, width), Pad(m, width)) <==> n < m
    ensures Pad(n, width) == Pad(m, width) <==> n == m
  {
    if width > 0 {
      PadOrder(n / 10, m / 10, width - 1);
      var a, b := Pad(n / 10, width - 1), Pad(m / 10, width - 1);
      LessAppend(a, b, Digit(n % 10), Digit(m % 10));
      assert Pad(n, width)[..width - 1] == a && Pad(m, width)[..width - 1] == b;
      assert Pad(n, width)[width - 1] == Digit(n % 10) && Pad(m, width)[width - 1] == Digit(m % 10);
    }
  }

  /** Equally long fronts decide the order before the ends do. */
  lemma {:induction false} LessConcat(a: string, b: string, c: string, d: string)
    requires |a| == |c|
    ensures Less(a + b, c + d) <==> Less(a, c) || (a == c && Less(b, d))
    ensures a + b == c + d <==> a == c && b == d
  {
    if a == "" {
      assert a + b == b && c + d == d;
    } else {
      LessConcat(a[1..], b, c[1..], d);
      assert (a + b)[1..] == a[1..] + b && (c + d)[1..] == c[1..] + d;
      assert a == [a[0]] + a[1..] && c == [c[0]] + c[1..];
      assert a + b == [a[0]] + (a[1..] + b) && c + d == [c[0]] + (c[1..] + d);
    }
  }

  /** The order of five fields of fixed width is the lexicographic one. */
  lemma {:induction false} LessFields(a: string, b: string, c: string, d: string, e: string,
                                      v: string, w: string, x: string, y: string, z: string)
    requires |a| == |v| && |b| == |w| && |c| == |x| && |d| == |y|
    ensures Less(a + b + c + d + e, v + w + x + y + z) <==>
      Less(a, v) || (a == v && (Less(b, w) || (b == w && (Less(c, x) || (c == x && (Less(d, y) || (d == y && Less(e, z))))))))
  {
    LessConcat(a + b + c + d, e, v + w + x + y, z);
    LessConcat(a + b + c, d, v + w + x, y);
    LessConcat(a + b, c, v + w, x);
    LessConcat(a, b, v, w);
  }

  /** Up to year 9999 timestamps sort as the moments they denote. */
  lemma {:induction false} TimestampOrder(a: Stamp, b: Stamp)
    requires ValidStamp(a) && ValidStamp(b) && a.year < 10000 && b.year < 10000
    ensures Less(FormatTimestamp(a), FormatTimestamp(b)) <==> Before(a, b)
  {
    FourDigitYear(a.year);
    FourDigitYear(b.year);
    assert Pow10(2) == 100;
    assert Pow10(4) == 10000;
    PadOrder(a.year, b.year, 4);
    PadOrder(a.month, b.month, 2);
    PadOrder(a.day, b.day, 2);
    PadOrder(a.hour, b.hour, 2);
    PadOrder(a.minute, b.minute, 2);
    LessFields(Pad(a.year, 4), Pad(a.month, 2), Pad(a.day, 2), Pad(a.hour, 2), Pad(a.minute, 2),
               Pad(b.year, 4), Pad(b.month, 2), Pad(b.day, 2), Pad(b.hour, 2), Pad(b.minute, 2));
  }

  /** Beyond year 9999 they do not: the year 10000 sorts before the year 9999. */
  lemma {:induction false} FiveDigitYearSortsEarly()
    ensures var a, b := Stamp(9999, 1, 1, 0, 0), Stamp(10000, 1, 1, 0, 0);
      Before(a, b) && Less(FormatTimestamp(b), FormatTimestamp(a))
  {
    var a, b := Stamp(9999, 1, 1, 0, 0), Stamp(10000, 1, 1, 0, 0);
    assert FormatTimestamp(a)[0] == '9';
    assert FormatTimestamp(b)[0] == '1';
  }

  /** Timestamps of the moments before year `limit` sort as the moments do. */
  ghost predicate SortsBefore(limit: nat) {
    forall a, b :: ValidStamp(a) && ValidStamp(b) && a.year < limit && b.year < limit ==>
      (Less(FormatTimestamp(a), FormatTimestamp(b)) <==> Before(a, b))
  }

  /** Main result, exactly: timestamps sort as moments up to a year if and only if that year has at most
      four digits. */
  lemma {:induction false} SortsExactly(limit: nat)
    ensures SortsBefore(limit) <==> limit <= 10000
  {
    if limit <= 10000 {
      forall a, b | ValidStamp(a) && ValidStamp(b) && a.year < limit && b.year < limit
        ensures Less(FormatTimestamp(a), FormatTimestamp(b)) <==> Before(a, b)
      {
        TimestampOrder(a, b);
      }
    } else {
      FiveDigitYearSortsEarly();
      assert ValidStamp(Stamp(9999, 1, 1, 0, 0)) && ValidStamp(Stamp(10000, 1, 1, 0, 0));
      LessIsTotal(FormatTimestamp(Stamp(9999, 1, 1, 0, 0)), FormatTimestamp(Stamp(10000, 1, 1, 0, 0)));
    }
  }

  // ----- hex

  function HexDigit(n: nat): (c: char)
    requires n < 16
    ensures c != '/'
  {
    if n < 10 then ('0' as int + n) as char else ('a' as int + n - 10) as char
  }

  function HexValue(c: char): (v: Option<nat>)
    ensures v.Some? ==> v.value < 16
  {
    if '0' <= c <= '9' then Some(c as int - '0' as int)
    else if 'a' <= c <= 'f' then Some(c as int - 'a' as int + 10)
    else if 'A' <= c <= 'F' then Some(c as int - 'A' as int + 10)
    else None
  }

  function HexEncode(bytes: seq<Byte>): (s: string)
    ensures |s| == 2 * |bytes| && '/' !in s
  {
    if bytes == [] then "" else [HexDigit(bytes[0] / 16), HexDigit(bytes[0] % 16)] + HexEncode(bytes[1..])
  }

  function HexDecode(s: string): Option<seq<Byte>> {
    if s == "" then Some([])
    else if |s| == 1 then None
    else
      var hi, lo, rest := HexValue(s[0]), HexValue(s[1]), HexDecode(s[2..]);
      if hi.None? || lo.None? || rest.None? then None
      else Some([hi.value * 16 + lo.value] + rest.value)
  }

  lemma {:induction false} HexRoundTrip(bytes: seq<Byte>)
    ensures HexDecode(HexEncode(bytes)) == Some(bytes)
  {
    if bytes != [] {
      HexRoundTrip(bytes[1..]);
      var s := HexEncode(bytes);
      assert s[2..] == HexEncode(bytes[1..]);
      assert HexValue(s[0]) == Some(bytes[0] / 16) && HexValue(s[1]) == Some(bytes[0] % 16);
      assert [bytes[0]] + bytes[1..] == bytes;
    }
  }

  // ----- building and parsing keys

  /** The parts of `s` between slashes. */
  function Split(s: string): (parts: seq<string>)
    ensures parts != []
  {
    if s == "" then
      [""]
    else
      var parts := Split(s[1..]);
      if s[0] == '/' then [""] + parts else [[s[0]] + parts[0]] + parts[1..]
  }

  lemma {:induction false} SplitPart(a: string, rest: string)
    requires '/' !in a
    ensures Split(a + "/" + rest) == [a] + Split(rest)
  {
    var s := a + "/" + rest;
    if a == "" {
      assert s[1..] == rest;
    } else {
      SplitPart(a[1..], rest);
      assert s[1..] == a[1..] + "/" + rest;
      assert s[0] == a[0] && a[0] in a;
      assert [a[0]] + a[1..] == a;
    }
  }

  lemma {:induction false} SplitLast(a: string)
    requires '/' !in a
    ensures Split(a) == [a]
  {
    if a != "" {
      SplitLast(a[1..]);
      assert a[0] in a && [a[0]] + a[1..] == a;
    }
  }

  function PruneKey(t: Stamp, commitment: seq<Byte>, hash: seq<Byte>): string {
    "/prune/" + FormatTimestamp(t) + "/" + HexEncode(commitment) + "/" + HexEncode(hash)
  }

  function CommitmentFromString(s: string): Option<seq<Byte>> {
    var bytes := HexDecode(s);
    if bytes.None? || |bytes.value| != COMMITMENT_SIZE then None else bytes
  }

  /** Commitment and promise hash of a key with five parts. */
  function ParsePruneKey(key: string): Option<(seq<Byte>, seq<Byte>)> {
    var parts := Split(key);
    if |parts| != 5 then
      None
    else
      var commitment, hash := CommitmentFromString(parts[3]), HexDecode(parts[4]);
      if commitment.None? || hash.None? then None else Some((commitment.value, hash.value))
  }

  lemma {:induction false} SplitThree(c: string, d: string, e: string)
    requires '/' !in c && '/' !in d && '/' !in e
    ensures Split(c + "/" + (d + "/" + e)) == [c, d, e]
  {
    SplitLast(e);
    SplitPart(d, e);
    SplitPart(c, d + "/" + e);
  }

  lemma Regroup(a: string, b: string, c: string)
    ensures a + b + c == a + (b + c)
  {
  }

  lemma JoinFive(a: string, b: string, c: string, d: string, e: string)
    ensures a + "/" + b + "/" + c + "/" + d + "/" + e == a + "/" + (b + "/" + (c + "/" + (d + "/" + e)))
  {
    var front := a + "/" + b + "/";
    Regroup(front + c + "/", d + "/", e);
    Regroup(front, c + "/", d + "/" + e);
    Regroup(front, c, "/");
    Regroup(a + "/", b + "/", c + "/" + (d + "/" + e));
    Regroup(a + "/", b, "/");
    Regroup(front + c + "/", d, "/");
  }

  lemma {:induction false} SplitFive(a: string, b: string, c: string, d: string, e: string)
    requires '/' !in a && '/' !in b && '/' !in c && '/' !in d && '/' !in e
    ensures Split(a + "/" + b + "/" + c + "/" + d + "/" + e) == [a, b, c, d, e]
  {
    var three := c + "/" + (d + "/" + e);
    SplitThree(c, d, e);
    SplitPart(b, three);
    SplitPart(a, b + "/" + three);
    JoinFive(a, b, c, d, e);
  }

  lemma {:induction false} PruneKeyParts(t: Stamp, commitment: seq<Byte>, hash: seq<Byte>)
    ensures Split(PruneKey(t, commitment, hash))
         == ["", "prune", FormatTimestamp(t), HexEncode(commitment), HexEncode(hash)]
  {
    SplitFive("", "prune", FormatTimestamp(t), HexEncode(commitment), HexEncode(hash));
    assert "" + "/" + "prune" + "/" == "/prune/";
  }

  /** Main result: parsing inverts building, for every commitment and promise hash. */
  lemma {:induction false} ParseInvertsPruneKey(t: Stamp, commitment: seq<Byte>, hash: seq<Byte>)
    requires |commitment| == COMMITMENT_SIZE
    ensures ParsePruneKey(PruneKey(t, commitment, hash)) == Some((commitment, hash))
  {
    PruneKeyParts(t, commitment, hash);
    HexRoundTrip(commitment);
    HexRoundTrip(hash);
  }

  /** The slice the prune scan compares: twelve characters after "/prune/". */
  function KeyTimestamp(key: string): string
    requires |key| >= 19
  {
    key[7..19]
  }

  lemma {:induction false} KeyTimestampIs(t: Stamp, commitment: seq<Byte>, hash: seq<Byte>)
    requires t.year < 10000
    ensures KeyTimestamp(PruneKey(t, commitment, hash)) == FormatTimestamp(t)
  {
    FourDigitYear(t.year);
    var time := FormatTimestamp(t);
    var key := PruneKey(t, commitment, hash);
    assert key == "/prune/" + (time + ("/" + HexEncode(commitment) + "/" + HexEncode(hash)));
    assert key[7..] == time + ("/" + HexEncode(commitment) + "/" + HexEncode(hash));
    assert key[7..19] == key[7..][..12];
  }
}
