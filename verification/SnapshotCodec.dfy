/**
 The snapshot file of internal/datasource/embedded_cache.go: magic, version, reserved, manifest hash, database
 name with its length, then the issues in an encoding of their own. The reader consumes the stream step by step.
 */
module SnapshotCodec {
  import opened Issues

  newtype Byte = x: int | 0 <= x < 256

  /** The 32 bytes of the manifest's hash and the bytes of the database name. */
  datatype Key = Key(db: seq<Byte>, manifest: seq<Byte>)

  const MAGIC: seq<Byte> := [66, 84, 83, 67]  // "BTSC"

  /** A 16-bit number, low byte first. */
  function U16(n: nat): seq<Byte>
    requires n < 0x10000
  {
    [(n % 256) as Byte, (n / 256) as Byte]
  }

  function FromU16(b: seq<Byte>): nat
    requires |b| == 2
  {
    b[0] as int + 256 * b[1] as int
  }

  lemma U16RoundTrip(n: nat)
    requires n < 0x10000
    ensures FromU16(U16(n)) == n
  {
  }

  lemma U16Injective(b: seq<Byte>)
    requires |b| == 2
    ensures FromU16(b) < 0x10000 && U16(FromU16(b)) == b
  {
    assert (b[0] as int + 256 * b[1] as int) % 256 == b[0] as int;
    assert (b[0] as int + 256 * b[1] as int) / 256 == b[1] as int;
  }

  ghost predicate WellFormed(key: Key)
  {
    |key.manifest| == 32
  }

  /** Everything in front of the payload; the two reserved bytes are free when reading. */
  ghost function Header(key: Key, reserved: seq<Byte>): seq<Byte>
    requires |key.db| < 0x10000
  {
    MAGIC + U16(1) + reserved + key.manifest + U16(|key.db|) + key.db
  }

  /** A payload encoding that gives back what was put in. */
  ghost predicate Faithful<T(!new)>(encode: T -> seq<Byte>, decode: seq<Byte> -> Option<T>)
  {
    forall x :: decode(encode(x)) == Some(x)
  }

  /** The bytes of a file: "BTSC", version 1, two zeros, the manifest, the name behind its length, the payload. */
  ghost predicate Laid(file: seq<Byte>, key: Key, payload: seq<Byte>)
  {
    && |file| == 42 + |key.db| + |payload| && |key.manifest| == 32
    && file[..8] == [66, 84, 83, 67, 1, 0, 0, 0] && file[8..40] == key.manifest
    && file[40] as int + 256 * file[41] as int == |key.db|
    && file[42..42 + |key.db|] == key.db && file[42 + |key.db|..] == payload
  }

  lemma LaidOut(key: Key, payload: seq<Byte>)
    requires WellFormed(key) && |key.db| < 0x10000
    ensures Laid(Header(key, [0, 0]) + payload, key, payload)
  {
    var file := Header(key, [0, 0]) + payload;
    HeaderParts(file, key, [0, 0], payload);
    assert file[4..6][0] == file[4] && file[4..6][1] == file[5] && file[40..42][0] == file[40]
      && file[40..42][1] == file[41];
    assert file[..4][0] == file[0] && file[..4][1] == file[1] && file[..4][2] == file[2] && file[..4][3] == file[3];
    assert file[..8] == [66, 84, 83, 67, 1, 0, 0, 0];
    U16RoundTrip(|key.db|);
  }

  /** A name too long for its length field is an error; the cache is then left alone. */
  method WriteSnapshot<T>(key: Key, issues: T, encode: T -> seq<Byte>) returns (file: Option<seq<Byte>>)
    requires WellFormed(key)
    ensures file.Some? <==> |key.db| < 0x10000
    ensures |key.db| < 0x10000 ==> file == Some(Header(key, [0, 0]) + encode(issues))
    ensures file.Some? ==> Laid(file.value, key, encode(issues))
  {
    var w := MAGIC;
    w := w + U16(1);
    w := w + U16(0);
    w := w + key.manifest;
    if |key.db| > 0xFFFF {
      return None;
    }
    w := w + U16(|key.db|);
    w := w + key.db;
    assert w == Header(key, [0, 0]);
    w := w + encode(issues);
    LaidOut(key, encode(issues));
    return Some(w);
  }

  /** Reading exactly n bytes from the stream. */
  method ReadFull(stream: seq<Byte>, n: nat) returns (got: Option<seq<Byte>>, rest: seq<Byte>)
    ensures got.None? <==> |stream| < n
    ensures got.Some? ==> |got.value| == n && stream == got.value + rest
  {
    if |stream| < n {
      return None, stream;
    }
    return Some(stream[..n]), stream[n..];
  }

  /** The payload of a file that carries the wanted key, for some reserved bytes. */
  ghost predicate Carries(file: seq<Byte>, want: Key, payload: seq<Byte>)
  {
    |want.db| < 0x10000 && exists reserved :: |reserved| == 2 && file == Header(want, reserved) + payload
  }

  /** The stream up to the payload: the key the file carries, or nothing when no key fits. */
  method ReadHeader(file: seq<Byte>) returns (key: Option<Key>, rest: seq<Byte>)
    ensures key.Some? ==> WellFormed(key.value) && Carries(file, key.value, rest)
    ensures key.None? ==> forall want, payload | WellFormed(want) :: !Carries(file, want, payload)
  {
    forall want, payload | WellFormed(want) && Carries(file, want, payload) ensures Shaped(file) {
      ShapedWhenCarrying(file, want, payload);
    }
    var magic, r0 := ReadFull(file, 4);
    if magic.None? || magic.value != MAGIC {
      return None, r0;
    }
    var version, r1 := ReadFull(r0, 2);
    if version.None? {
      return None, r1;
    }
    assert version.value == file[4..6];
    if FromU16(version.value) != 1 {
      return None, r1;
    }
    U16Injective(version.value);
    var reserved, r2 := ReadFull(r1, 2);
    if reserved.None? {
      return None, r2;
    }
    var hash, r3 := ReadFull(r2, 32);
    if hash.None? {
      return None, r3;
    }
    var len, r4 := ReadFull(r3, 2);
    if len.None? {
      return None, r4;
    }
    assert len.value == file[40..42];
    U16Injective(len.value);
    var name, r5 := ReadFull(r4, FromU16(len.value));
    if name.None? {
      return None, r5;
    }
    assert file == Header(Key(name.value, hash.value), reserved.value) + r5;
    return Some(Key(name.value, hash.value)), r5;
  }

  /** What reading a file under a key gives: the decoded payload when it carries the key, nothing otherwise. */
  ghost predicate ReadAs<T>(file: seq<Byte>, want: Key, decode: seq<Byte> -> Option<T>, issues: Option<T>)
  {
    && (forall payload | Carries(file, want, payload) :: issues == decode(payload))
    && (issues.Some? ==> exists payload :: Carries(file, want, payload))
  }

  /** A hit means: the file carries the wanted key and its payload decodes. Everything else is a miss. */
  method ReadSnapshot<T>(file: seq<Byte>, want: Key, decode: seq<Byte> -> Option<T>) returns (issues: Option<T>)
    requires WellFormed(want)
    ensures ReadAs(file, want, decode, issues)
  {
    var key, rest := ReadHeader(file);
    if key.None? {
      return None;
    }
    OneKey(file, key.value, rest);
    if key.value.manifest != want.manifest || key.value.db != want.db {
      return None;
    }
    return decode(rest);
  }

  /** The tests a reader makes before it compares keys all succeed. */
  ghost predicate Shaped(file: seq<Byte>)
  {
    && |file| >= 42 && file[..4] == MAGIC && FromU16(file[4..6]) == 1 && |file| >= 42 + FromU16(file[40..42])
  }

  lemma ShapedWhenCarrying(file: seq<Byte>, want: Key, payload: seq<Byte>)
    requires WellFormed(want) && Carries(file, want, payload)
    ensures Shaped(file)
  {
    var reserved :| |reserved| == 2 && file == Header(want, reserved) + payload;
    HeaderParts(file, want, reserved, payload);
    U16RoundTrip(1);
    U16RoundTrip(|want.db|);
  }

  /** A file carries at most one key and one payload. */
  lemma OneKey(file: seq<Byte>, key: Key, payload: seq<Byte>)
    requires WellFormed(key) && Carries(file, key, payload)
    ensures forall want, other | WellFormed(want) && Carries(file, want, other) :: want == key && other == payload
  {
    var reserved :| |reserved| == 2 && file == Header(key, reserved) + payload;
    HeaderParts(file, key, reserved, payload);
    U16RoundTrip(|key.db|);
    forall want, other | WellFormed(want) && Carries(file, want, other) ensures want == key && other == payload {
      var reserved' :| |reserved'| == 2 && file == Header(want, reserved') + other;
      HeaderParts(file, want, reserved', other);
      U16RoundTrip(|want.db|);
    }
  }

  /** Where the parts of a header stand in the file. */
  lemma HeaderParts(file: seq<Byte>, want: Key, reserved: seq<Byte>, payload: seq<Byte>)
    requires WellFormed(want) && |want.db| < 0x10000 && |reserved| == 2
    requires file == Header(want, reserved) + payload
    ensures |file| == 42 + |want.db| + |payload|
    ensures file[..4] == MAGIC && file[4..6] == U16(1) && file[8..40] == want.manifest
    ensures file[40..42] == U16(|want.db|) && file[42..42 + |want.db|] == want.db && file[42 + |want.db|..] == payload
  {
  }

  /** A file written under one key is read under that key only: round trip, and no service to another database. */
  lemma OnlyItsOwnKey(key: Key, want: Key, payload: seq<Byte>, other: seq<Byte>)
    requires WellFormed(key) && WellFormed(want) && |key.db| < 0x10000
    ensures Carries(Header(key, [0, 0]) + payload, want, other) <==> want == key && other == payload
  {
    var file := Header(key, [0, 0]) + payload;
    assert Carries(file, key, payload);
    OneKey(file, key, payload);
  }

  /** What was written under a key is read back under that key, and under no other. */
  lemma ReadsBack<T(!new)>(key: Key, want: Key, issues: T, encode: T -> seq<Byte>, decode: seq<Byte> -> Option<T>,
                           r: Option<T>)
    requires WellFormed(key) && WellFormed(want) && |key.db| < 0x10000 && Faithful(encode, decode)
    requires ReadAs(Header(key, [0, 0]) + encode(issues), want, decode, r)
    ensures r == if want == key then Some(issues) else None
  {
    forall payload {
      OnlyItsOwnKey(key, want, encode(issues), payload);
    }
  }

  lemma SliceOfPrefix(file: seq<Byte>, n: nat, a: nat, b: nat)
    requires a <= b <= n <= |file|
    ensures file[..n][a..b] == file[a..b]
  {
  }

  /** A file cut short anywhere inside its header is a miss. */
  lemma TruncatedHeader(key: Key, want: Key, n: nat, payload: seq<Byte>)
    requires WellFormed(key) && WellFormed(want) && |key.db| < 0x10000 && n < |Header(key, [0, 0])|
    ensures !Carries(Header(key, [0, 0])[..n], want, payload)
  {
    var whole := Header(key, [0, 0]);
    assert whole + [] == whole;
    HeaderParts(whole, key, [0, 0], []);
    if Carries(whole[..n], want, payload) {
      ShapedWhenCarrying(whole[..n], want, payload);
      SliceOfPrefix(whole, n, 40, 42);
      U16RoundTrip(|key.db|);
    }
  }

  // ---------- one call of LoadIssues, by itself ----------

  /** What one run of the exporter may bring. */
  datatype Attempt<T> = Exported(issues: T) | Unparsable | Fails | TimesOut

  datatype Load<T> = Loaded(issues: T) | Error

  /** The first attempt that is not a plain failure, among the first n; n when there is none. */
  ghost function Decisive<T>(attempts: seq<Attempt<T>>, n: nat): (k: nat)
    requires n <= |attempts|
    ensures k <= n && (k < n ==> !attempts[k].Fails?) && forall j | 0 <= j < k :: attempts[j].Fails?
  {
    if n == 0 then 0
    else
      var k := Decisive(attempts, n - 1);
      if k < n - 1 then k else if attempts[n - 1].Fails? then n else n - 1
  }

  /** The result is what a payload carried under the key decodes to. */
  ghost predicate ServedFrom<T(!new)>(file: seq<Byte>, key: Key, decode: seq<Byte> -> Option<T>, result: Load<T>)
  {
    exists payload :: Carries(file, key, payload) && decode(payload).Some? && result == Loaded(decode(payload).value)
  }

  /**
   Probe the cache, then export with up to maxRetries retries, then write the cache. A cache write that is
   impossible never fails the load; a miss never leaves the cache with anything but the exported issues.
   */
  method LoadIssues<T(!new)>(key: Option<Key>, cached: Option<seq<Byte>>, attempts: seq<Attempt<T>>, maxRetries: nat,
                       encode: T -> seq<Byte>, decode: seq<Byte> -> Option<T>)
      returns (result: Load<T>, stored: Option<seq<Byte>>, used: nat)
    requires key.Some? ==> WellFormed(key.value)
    requires |attempts| > maxRetries
    ensures forall payload | key.Some? && cached.Some? && Carries(cached.value, key.value, payload)
      && decode(payload).Some? ::
      result == Loaded(decode(payload).value) && stored == cached && used == 0
    ensures used > 0 ==>
      var k := Decisive(attempts, maxRetries + 1);
      && used == (if k == maxRetries + 1 then k else k + 1)
      && result == (if k <= maxRetries && attempts[k].Exported? then Loaded(attempts[k].issues) else Error)
      && stored == (if result.Loaded? && key.Some? && |key.value.db| < 0x10000
                    then Some(Header(key.value, [0, 0]) + encode(attempts[k].issues)) else cached)
    ensures used == 0 ==> key.Some? && cached.Some? && ServedFrom(cached.value, key.value, decode, result)
  {
    stored, used := cached, 0;
    if key.Some? && cached.Some? {
      var hit := ReadSnapshot(cached.value, key.value, decode);
      if hit.Some? {
        return Loaded(hit.value), stored, 0;
      }
    }
    for attempt := 0 to maxRetries + 1
      invariant used == attempt && stored == cached
      invariant forall j | 0 <= j < attempt :: attempts[j].Fails?
    {
      used := used + 1;
      match attempts[attempt] {
        case Exported(issues) =>
          if key.Some? {
            var file := WriteSnapshot(key.value, issues, encode);
            if file.Some? {
              stored := file;
            }
          }
          return Loaded(issues), stored, used;
        case Unparsable => return Error, stored, used;
        case TimesOut => return Error, stored, used;
        case Fails =>
      }
    }
    return Error, stored, used;
  }
}
