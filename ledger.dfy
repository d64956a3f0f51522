/** The upload ledger of main.ts: Deno KV entries under the key
    `["uploads", MAX_DATE_MS - createdAt, id]`, written by the two upload
    routes, listed in ascending key order up to a limit and deleted by exact
    key. */
module UploadLedger {

  /** `MAX_DATE_MS` (main.ts:25). */
  const MaxDateMs: int := 9999999999999

  datatype Source = File | Url

  /** The value stored per completed upload; `createdAt` in milliseconds. */
  datatype UploadRecord = UploadRecord(
    id: string, fileName: string, appLink: string, r2Url: string, createdAt: int, source: Source)

  /** A part of a Deno KV key, as far as this ledger uses them. */
  datatype KeyPart = KStr(s: string) | KNum(n: int)

  /** The two parts of a ledger key after the "uploads" prefix. */
  datatype LedgerKey = LedgerKey(inverted: int, id: string)

  function KeyOf(r: UploadRecord): LedgerKey {
    LedgerKey(MaxDateMs - r.createdAt, r.id)
  }

  /** The full KV key `["uploads", inverted, id]`. */
  function KeyParts(k: LedgerKey): (parts: seq<KeyPart>)
    ensures |parts| == 3 && parts[0] == KStr("uploads")
  {
    [KStr("uploads"), KNum(k.inverted), KStr(k.id)]
  }

  lemma KeyPartsInjective(a: LedgerKey, b: LedgerKey)
    requires KeyParts(a) == KeyParts(b)
    ensures a == b
  {
    assert KeyParts(a)[1] == KeyParts(b)[1];
    assert KeyParts(a)[2] == KeyParts(b)[2];
  }

  // ---------------------------------------------------------------------
  // Key order

  /** Deno KV orders string parts by their UTF-8 bytes, which is the order of
      their code points, compared lexicographically. */
  predicate StrLess(a: string, b: string) {
    if a == [] then b != []
    else if b == [] then false
    else if a[0] != b[0] then a[0] < b[0]
    else StrLess(a[1..], b[1..])
  }

  /** Keys of the same shape compare part by part. */
  predicate KeyLess(a: LedgerKey, b: LedgerKey) {
    a.inverted < b.inverted || (a.inverted == b.inverted && StrLess(a.id, b.id))
  }

  lemma {:induction false} StrLessIrreflexive(a: string)
    ensures !StrLess(a, a)
  {
    if a != [] {
      StrLessIrreflexive(a[1..]);
    }
  }

  lemma {:induction false} StrLessTransitive(a: string, b: string, c: string)
    requires StrLess(a, b) && StrLess(b, c)
    ensures StrLess(a, c)
  {
    if a != [] && b != [] && c != [] && a[0] == b[0] && b[0] == c[0] {
      StrLessTransitive(a[1..], b[1..], c[1..]);
    }
  }

  lemma {:induction false} StrLessTotal(a: string, b: string)
    ensures a == b || StrLess(a, b) || StrLess(b, a)
  {
    if a != [] && b != [] && a[0] == b[0] {
      StrLessTotal(a[1..], b[1..]);
      if a[1..] == b[1..] {
        assert a == [a[0]] + a[1..] && b == [b[0]] + b[1..];
      }
    }
  }

  /** The key order is a strict total order. */
  lemma KeyLessIsStrictTotalOrder(a: LedgerKey, b: LedgerKey, c: LedgerKey)
    ensures !KeyLess(a, a)
    ensures KeyLess(a, b) && KeyLess(b, c) ==> KeyLess(a, c)
    ensures a == b || KeyLess(a, b) || KeyLess(b, a)
  {
    StrLessIrreflexive(a.id);
    if KeyLess(a, b) && KeyLess(b, c) && a.inverted == b.inverted == c.inverted {
      StrLessTransitive(a.id, b.id, c.id);
    }
    StrLessTotal(a.id, b.id);
  }

  /** The inverted timestamp makes ascending key order newest first: a key
      that sorts first was never created later. */
  lemma KeyLessMeansNotOlder(x: UploadRecord, y: UploadRecord)
    requires KeyLess(KeyOf(x), KeyOf(y))
    ensures x.createdAt >= y.createdAt
    ensures x.createdAt == y.createdAt ==> StrLess(x.id, y.id)
  {
  }

  // ---------------------------------------------------------------------
  // The store: records in ascending key order, one per key

  predicate Sorted(s: seq<UploadRecord>) {
    forall i, j :: 0 <= i < j < |s| ==> KeyLess(KeyOf(s[i]), KeyOf(s[j]))
  }

  lemma SortedTail(s: seq<UploadRecord>)
    requires s != [] && Sorted(s)
    ensures Sorted(s[1..])
    ensures forall x :: x in s[1..] ==> KeyLess(KeyOf(s[0]), KeyOf(x))
  {
    forall x | x in s[1..] ensures KeyLess(KeyOf(s[0]), KeyOf(x)) {
      var j :| 0 <= j < |s[1..]| && s[1..][j] == x;
      assert s[j + 1] == x;
    }
  }

  lemma SortedCons(a: UploadRecord, t: seq<UploadRecord>)
    requires Sorted(t)
    requires forall x :: x in t ==> KeyLess(KeyOf(a), KeyOf(x))
    ensures Sorted([a] + t)
  {
    var s := [a] + t;
    forall i, j | 0 <= i < j < |s| ensures KeyLess(KeyOf(s[i]), KeyOf(s[j])) {
      if i == 0 {
        assert s[j] == t[j - 1];
        assert s[j] in t;
      } else {
        assert s[i] == t[i - 1] && s[j] == t[j - 1];
      }
    }
  }

  /** `kv.set(key, value)`: the record takes the place of any record with the
      same key. */
  function Insert(s: seq<UploadRecord>, r: UploadRecord): seq<UploadRecord>
  {
    if s == [] then [r]
    else if KeyOf(r) == KeyOf(s[0]) then [r] + s[1..]
    else if KeyLess(KeyOf(r), KeyOf(s[0])) then [r] + s
    else [s[0]] + Insert(s[1..], r)
  }

  /** Writing keeps the store in key order, adds the record and keeps every
      record with another key. */
  lemma {:induction false} InsertSpec(s: seq<UploadRecord>, r: UploadRecord)
    requires Sorted(s)
    ensures Sorted(Insert(s, r))
    ensures forall x :: x in Insert(s, r) <==> x == r || (x in s && KeyOf(x) != KeyOf(r))
  {
    if s != [] {
      SortedTail(s);
      KeyLessIsStrictTotalOrder(KeyOf(r), KeyOf(s[0]), KeyOf(s[0]));
      if KeyOf(r) == KeyOf(s[0]) {
        forall x | x in s[1..] ensures KeyOf(x) != KeyOf(r) {
          KeyLessIsStrictTotalOrder(KeyOf(x), KeyOf(x), KeyOf(x));
        }
        SortedCons(r, s[1..]);
        assert s == [s[0]] + s[1..];
      } else if KeyLess(KeyOf(r), KeyOf(s[0])) {
        forall x | x in s ensures KeyLess(KeyOf(r), KeyOf(x)) {
          if x != s[0] {
            KeyLessIsStrictTotalOrder(KeyOf(r), KeyOf(s[0]), KeyOf(x));
          }
        }
        SortedCons(r, s);
        forall x | x in s ensures KeyOf(x) != KeyOf(r) {
          KeyLessIsStrictTotalOrder(KeyOf(r), KeyOf(r), KeyOf(r));
        }
      } else {
        InsertSpec(s[1..], r);
        SortedCons(s[0], Insert(s[1..], r));
        assert s == [s[0]] + s[1..];
      }
    }
  }

  /** `kv.delete(key)`: drops the record stored under exactly `key`, if any. */
  function RemoveKey(s: seq<UploadRecord>, key: seq<KeyPart>): (t: seq<UploadRecord>)
    ensures |t| <= |s|
  {
    if s == [] then []
    else if KeyParts(KeyOf(s[0])) == key then RemoveKey(s[1..], key)
    else [s[0]] + RemoveKey(s[1..], key)
  }

  /** Deleting keeps the store in key order, removes what is under `key` and
      keeps everything else. */
  lemma {:induction false} RemoveKeySpec(s: seq<UploadRecord>, key: seq<KeyPart>)
    requires Sorted(s)
    ensures Sorted(RemoveKey(s, key))
    ensures forall x :: x in RemoveKey(s, key) <==> x in s && KeyParts(KeyOf(x)) != key
  {
    if s != [] {
      SortedTail(s);
      RemoveKeySpec(s[1..], key);
      if KeyParts(KeyOf(s[0])) != key {
        SortedCons(s[0], RemoveKey(s[1..], key));
      }
      assert s == [s[0]] + s[1..];
    }
  }

  /** Deleting a key that is not stored changes nothing. */
  lemma {:induction false} RemoveAbsentKey(s: seq<UploadRecord>, key: seq<KeyPart>)
    requires forall x :: x in s ==> KeyParts(KeyOf(x)) != key
    ensures RemoveKey(s, key) == s
  {
    if s != [] {
      assert s[0] in s;
      RemoveAbsentKey(s[1..], key);
      assert s == [s[0]] + s[1..];
    }
  }

  /** Deleting twice is deleting once. */
  lemma RemoveKeyIdempotent(s: seq<UploadRecord>, key: seq<KeyPart>)
    requires Sorted(s)
    ensures RemoveKey(RemoveKey(s, key), key) == RemoveKey(s, key)
  {
    RemoveKeySpec(s, key);
    RemoveAbsentKey(RemoveKey(s, key), key);
  }

  /** Keys are unique, so a delete removes at most one record. */
  lemma {:induction false} RemoveKeyRemovesAtMostOne(s: seq<UploadRecord>, key: seq<KeyPart>)
    requires Sorted(s)
    ensures |RemoveKey(s, key)| >= |s| - 1
  {
    if s != [] {
      SortedTail(s);
      if KeyParts(KeyOf(s[0])) == key {
        forall x | x in s[1..] ensures KeyParts(KeyOf(x)) != key {
          if KeyParts(KeyOf(x)) == key {
            KeyPartsInjective(KeyOf(x), KeyOf(s[0]));
            KeyLessIsStrictTotalOrder(KeyOf(x), KeyOf(x), KeyOf(x));
          }
        }
        RemoveAbsentKey(s[1..], key);
      } else {
        RemoveKeyRemovesAtMostOne(s[1..], key);
      }
    }
  }

  /** Of two stored records, the one created later is stored first. */
  lemma NewerStoredFirst(s: seq<UploadRecord>, i: nat, j: nat)
    requires Sorted(s) && i < |s| && j < |s|
    requires s[i].createdAt > s[j].createdAt
    ensures i < j
  {
    if j < i {
      KeyLessMeansNotOlder(s[j], s[i]);
    }
  }

  /** Deleting the key of a freshly written record gives back the store as it
      was before the write. */
  lemma {:induction false} DeleteUndoesPut(s: seq<UploadRecord>, r: UploadRecord)
    requires forall x :: x in s ==> KeyOf(x) != KeyOf(r)
    ensures RemoveKey(Insert(s, r), KeyParts(KeyOf(r))) == s
  {
    var key := KeyParts(KeyOf(r));
    if s == [] {
      assert Insert(s, r) == [r];
      assert RemoveKey([r], key) == RemoveKey([r][1..], key);
    } else {
      assert s[0] in s;
      if KeyLess(KeyOf(r), KeyOf(s[0])) {
        forall x | x in s ensures KeyParts(KeyOf(x)) != key {
          if KeyParts(KeyOf(x)) == key {
            KeyPartsInjective(KeyOf(x), KeyOf(r));
          }
        }
        RemoveAbsentKey(s, key);
        assert Insert(s, r) == [r] + s;
        assert ([r] + s)[1..] == s;
        assert RemoveKey([r] + s, key) == RemoveKey(s, key);
      } else {
        if KeyParts(KeyOf(s[0])) == key {
          KeyPartsInjective(KeyOf(s[0]), KeyOf(r));
        }
        forall x | x in s[1..] ensures KeyOf(x) != KeyOf(r) {
          assert x in s;
        }
        DeleteUndoesPut(s[1..], r);
        var t := Insert(s[1..], r);
        assert Insert(s, r) == [s[0]] + t;
        assert ([s[0]] + t)[1..] == t;
        assert RemoveKey([s[0]] + t, key) == [s[0]] + RemoveKey(t, key);
        assert s == [s[0]] + s[1..];
      }
    }
  }

  /** An upload finished after every stored one is stored first, so it heads
      the history listing. */
  lemma NewestUploadListsFirst(s: seq<UploadRecord>, r: UploadRecord)
    requires forall x :: x in s ==> x.createdAt < r.createdAt
    ensures Insert(s, r) == [r] + s
  {
    if s != [] {
      assert s[0] in s;
    }
  }

  function Min(a: nat, b: nat): nat {
    if a <= b then a else b
  }

  // ---------------------------------------------------------------------
  // The store as an object

  class Ledger {
    /** The records under the "uploads" prefix, in ascending key order. */
    var entries: seq<UploadRecord>

    ghost predicate Valid()
      reads this
    {
      Sorted(entries)
    }

    constructor ()
      ensures Valid() && entries == []
    {
      entries := [];
    }

    /** `kv.set(["uploads", MAX_DATE_MS - createdAt, id], record)`. */
    method Put(r: UploadRecord)
      requires Valid()
      modifies this
      ensures Valid()
      ensures entries == Insert(old(entries), r)
    {
      InsertSpec(entries, r);
      entries := Insert(entries, r);
    }

    /** `kv.delete(key)`; a key that is not stored is not an error. */
    method Delete(key: seq<KeyPart>)
      requires Valid()
      modifies this
      ensures Valid()
      ensures entries == RemoveKey(old(entries), key)
    {
      RemoveKeySpec(entries, key);
      entries := RemoveKey(entries, key);
    }

    /** `kv.list({ prefix: ["uploads"] }, { limit })`: the first `limit`
        entries in ascending key order with their keys, which are the newest
        records, newest first. */
    method List(limit: nat) returns (listed: seq<(seq<KeyPart>, UploadRecord)>)
      requires Valid()
      ensures |listed| == Min(limit, |entries|)
      ensures forall i :: 0 <= i < |listed| ==>
        listed[i] == (KeyParts(KeyOf(entries[i])), entries[i])
      ensures forall i, j :: 0 <= i < j < |entries| && i < |listed| ==>
        listed[i].1.createdAt >= entries[j].createdAt
    {
      listed := [];
      var i := 0;
      while i < |entries| && i < limit
        invariant 0 <= i <= |entries| && i <= limit
        invariant |listed| == i
        invariant forall k :: 0 <= k < i ==> listed[k] == (KeyParts(KeyOf(entries[k])), entries[k])
      {
        listed := listed + [(KeyParts(KeyOf(entries[i])), entries[i])];
        i := i + 1;
      }
      forall i, j | 0 <= i < j < |entries| && i < |listed|
        ensures listed[i].1.createdAt >= entries[j].createdAt
      {
        KeyLessMeansNotOlder(entries[i], entries[j]);
      }
    }
  }
}
