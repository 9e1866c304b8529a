// The cache's hash table: 200-byte records holding a key, a status byte and a value.
module ProxyHash {
  import opened Bytes
  import opened Wrappers
  import opened CacheModel

  const STATUS_LIVE: byte := 0
  const STATUS_DELETED: byte := 1

  function Zeros(n: nat): Text {
    seq(n, _ => NUL)
  }

  /** A record as the table keeps it: the key padded with zeros, the status, and, unless the key is
      marked deleted, a terminated value. */
  predicate IsRecord(key: Text, rec: Text) {
    && |rec| == 200
    && |key| <= 98 && NulFree(key)
    && rec[..100] == key + Zeros(100 - |key|)
    && rec[100] in {0, 1}
    && (rec[100] == 0 ==> NUL in rec[101..])
  }

  /** The cache entry a record stands for. */
  function EntryOf(rec: Text): Entry
    requires |rec| == DATA_SIZE
  {
    if rec[100] == 1 then Tombstone else Live(CStr(rec[101..]))
  }

  /** The record after `set_hash_table` wrote it: the key bytes, the padding, the status, and a
      fixed-size copy of whatever memory the value string starts in. */
  function Written(rec: Text, key: Text, value: Option<Text>, status: byte): (r: Text)
    requires |rec| == DATA_SIZE && KeyFits(key) && key != []
    requires value.Some? ==> |value.value| >= VALUE_SIZE
    ensures |r| == DATA_SIZE
  {
    var r1 := Overwrite(rec, 0, key[..|key| - 1]);
    var r2 := Overwrite(r1, |key| + 1, Zeros(KEY_SIZE - (|key| + 1)));
    var r3 := r2[KEY_SIZE := status];
    if value.Some? then Overwrite(r3, KEY_SIZE + 1, value.value[..VALUE_SIZE]) else r3
  }

  lemma {:induction false} CStrOfPrefix(mem: Text, n: nat)
    requires n <= |mem| && NUL in mem[..n]
    ensures CStr(mem) == CStr(mem[..n])
  {
    if mem[0] != NUL {
      assert mem[..n][1..] == mem[1..][..n - 1];
      CStrOfPrefix(mem[1..], n - 1);
    }
  }

  /** A record reads back as the last value or deletion written to it, whatever bytes follow the
      value's terminator, and its key area keeps the key. */
  lemma WrittenReadsBack(rec: Text, key: Text, value: Option<Text>, status: byte)
    requires |rec| == DATA_SIZE && KeyFits(key) && NulFree(key) && key != []
    requires rec[..|key| + 1] == key + [NUL]
    requires value.Some? ==> |value.value| >= VALUE_SIZE && NUL in value.value[..VALUE_SIZE]
    requires status in {STATUS_LIVE, STATUS_DELETED} && (status == STATUS_LIVE ==> value.Some?)
    ensures var r := Written(rec, key, value, status);
      && IsRecord(key, r)
      && EntryOf(r) == if status == STATUS_DELETED then Tombstone else Live(CStr(value.value))
  {
    var r1 := Overwrite(rec, 0, key[..|key| - 1]);
    var r2 := Overwrite(r1, |key| + 1, Zeros(KEY_SIZE - (|key| + 1)));
    var r := Written(rec, key, value, status);
    assert r1[..|key| + 1] == key + [NUL] by {
      assert r1[|key| - 1..] == rec[|key| - 1..];
      assert rec[..|key| + 1][|key| - 1] == rec[|key| - 1] && rec[..|key| + 1][|key|] == rec[|key|];
    }
    assert r2[..KEY_SIZE] == r2[..|key| + 1] + r2[|key| + 1..KEY_SIZE];
    assert r2[..KEY_SIZE] == key + Zeros(KEY_SIZE - |key|);
    assert r[..KEY_SIZE] == r2[..KEY_SIZE];
    if value.Some? {
      assert r[KEY_SIZE + 1..] == value.value[..VALUE_SIZE];
      CStrOfPrefix(value.value, VALUE_SIZE);
    }
  }

  ghost predicate AllRecords(records: map<Text, Text>) {
    forall k :: k in records ==> IsRecord(k, records[k])
  }

  ghost function Entries(records: map<Text, Text>): map<Text, Entry>
    requires AllRecords(records)
  {
    map k | k in records :: EntryOf(records[k])
  }

  class HashTable {
    var records: map<Text, Text>

    ghost predicate Valid()
      reads this
    {
      AllRecords(records)
    }

    /** The table as a map from keys to entries. */
    ghost function Contents(): map<Text, Entry>
      reads this
    {
      if Valid() then Entries(records) else map[]
    }

    constructor ()
      ensures Valid() && Contents() == map[]
    {
      records := map[];
    }

    /** `hash_search` with HASH_ENTER: the record for the key, made with the key in place if there was none. */
    method HashEnter(key: Text) returns (rec: Text)
      requires Valid() && KeyFits(key) && NulFree(key)
      ensures |rec| == DATA_SIZE && rec[..|key| + 1] == key + [NUL]
    {
      if key in records {
        rec := records[key];
        assert rec[..|key| + 1] == rec[..KEY_SIZE][..|key| + 1];
      } else {
        rec := UnspecifiedBytes(DATA_SIZE);
        rec := Overwrite(rec, 0, key + [NUL]);
        assert rec[..|key| + 1] == rec[0..0 + |key + [NUL]|];
      }
    }

    method CheckHashTable(key: Text) returns (value: Option<Text>, found: bool)
      requires Valid()
      ensures found <==> key in Contents()
      ensures value == if found then EntryValue(Contents()[key]) else None
      ensures value.Some? ==> NulFree(value.value) && |value.value| <= VALUE_SIZE
    {
      if key in records {
        var result := records[key];
        found := true;
        if result[KEY_SIZE] == STATUS_DELETED {
          value := None;
        } else {
          value := Some(CStr(result[KEY_SIZE + 1..]));
        }
      } else {
        found := false;
        value := None;
      }
    }

    method SetHashTable(key: Text, value: Option<Text>, newStatus: byte)
      requires Valid() && KeyFits(key) && NulFree(key) && key != []
      requires value.Some? ==> |value.value| >= VALUE_SIZE && NUL in value.value[..VALUE_SIZE]
      requires newStatus in {STATUS_LIVE, STATUS_DELETED} && (newStatus == STATUS_LIVE ==> value.Some?)
      modifies this
      ensures Valid()
      ensures Contents() ==
              old(Contents())[key := if newStatus == STATUS_DELETED then Tombstone else Live(CStr(value.value))]
    {
      hide Written;
      hide IsRecord;
      hide EntryOf;
      var rec := HashEnter(key);
      WrittenReadsBack(rec, key, value, newStatus);
      var result := FillRecord(rec, key, value, newStatus);
      records := records[key := result];
    }
  }

  method FillRecord(rec: Text, key: Text, value: Option<Text>, newStatus: byte) returns (result: Text)
    requires |rec| == DATA_SIZE && KeyFits(key) && key != []
    requires value.Some? ==> |value.value| >= VALUE_SIZE
    ensures result == Written(rec, key, value, newStatus)
  {
    result := Overwrite(rec, 0, key[..|key| - 1]);
    result := Overwrite(result, |key| + 1, Zeros(KEY_SIZE - (|key| + 1)));
    result := result[KEY_SIZE := newStatus];
    if value.Some? {
      result := Overwrite(result, KEY_SIZE + 1, value.value[..VALUE_SIZE]);
    }
  }
}
