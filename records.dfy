/**
 * The generic single-table layer (`Records`): create stamps a creation time and
 * upserts by the value of one identity field; read, update and delete find
 * records by that field.  Each table change is one atomic step.
 */
module Records {
  import opened Store

  const CreatedAt: string := "created_at"
  const MicrosPerSecond: nat := 1_000_000

  /** The clock reading with its sub-second digits dropped. */
  function WholeSeconds(now: nat): (t: nat)
    ensures t % MicrosPerSecond == 0
    ensures t <= now < t + MicrosPerSecond
  {
    now - now % MicrosPerSecond
  }

  /** The new record with its creation time overwritten. */
  function Stamp(newRecord: Doc, now: nat): Doc
  {
    newRecord[CreatedAt := Time(WholeSeconds(now))]
  }

  /** No two records of `t` carry the same value in field `key`. */
  predicate UniqueBy(t: seq<Doc>, key: string)
  {
    forall i, j | 0 <= i < j < |t| :: key in t[i] && key in t[j] ==> t[i][key] != t[j][key]
  }

  /** Update every record whose `key` equals the new one's, or else append the new one. */
  function Upsert(t: seq<Doc>, key: string, rec: Doc): seq<Doc>
    requires key in rec
  {
    var q := FieldIs(key, rec[key]);
    if Contains(t, q) then Apply(t, q, rec) else t + [rec]
  }

  /** After an upsert some record carries the new key and every field of the new record. */
  lemma UpsertStores(t: seq<Doc>, key: string, rec: Doc)
    requires key in rec
    ensures Get(Upsert(t, key, rec), FieldIs(key, rec[key])).Some?
    ensures Includes(Get(Upsert(t, key, rec), FieldIs(key, rec[key])).value, rec)
  {
    var q := FieldIs(key, rec[key]);
    var r := Upsert(t, key, rec);
    assert Holds(q, rec);
    if !Contains(t, q) {
      assert r[|t|] == rec;
    } else {
      var i :| 0 <= i < |t| && Holds(q, t[i]);
      assert r[i] == t[i] + rec;
    }
    assert Contains(r, q);
    var d := Get(r, q).value;
    var i :| 0 <= i < |r| && r[i] == d;
    if Contains(t, q) {
      assert Holds(q, t[i]);
      assert d == t[i] + rec;
    } else {
      assert forall j | 0 <= j < |t| :: r[j] == t[j] && !Holds(q, r[j]);
      assert d == rec;
    }
  }

  /** An upsert adds or rewrites only records that end up carrying the new record's key. */
  lemma UpsertKeysFrom(t: seq<Doc>, key: string, rec: Doc)
    requires key in rec
    ensures forall d | d in Upsert(t, key, rec) :: d in t || (key in d && d[key] == rec[key])
  {
    var q := FieldIs(key, rec[key]);
    var r := Upsert(t, key, rec);
    forall d | d in r ensures d in t || (key in d && d[key] == rec[key]) {
      var i :| 0 <= i < |r| && r[i] == d;
      if Contains(t, q) {
        if !Holds(q, t[i]) {
          assert d == t[i];
        }
      } else if i < |t| {
        assert d == t[i];
      }
    }
  }

  /** Merging updates that do not name `key` leaves every record's `key` as it was. */
  lemma ApplyKeepsKey(t: seq<Doc>, q: Query, updates: Doc, key: string)
    requires key !in updates
    ensures forall i | 0 <= i < |t| ::
      (key in Apply(t, q, updates)[i] <==> key in t[i]) && (key in t[i] ==> Apply(t, q, updates)[i][key] == t[i][key])
  {
  }

  /** At most one record per key: an upsert keeps the key field unique (invariant I1). */
  lemma UpsertKeepsKeysUnique(t: seq<Doc>, key: string, rec: Doc)
    requires key in rec
    requires UniqueBy(t, key)
    ensures UniqueBy(Upsert(t, key, rec), key)
  {
    var q := FieldIs(key, rec[key]);
    var r := Upsert(t, key, rec);
    if Contains(t, q) {
      forall i | 0 <= i < |t| && key in t[i]
        ensures key in r[i] && r[i][key] == t[i][key]
      {
        if Holds(q, t[i]) {
          assert r[i] == t[i] + rec;
        }
      }
    } else {
      forall i, j | 0 <= i < j < |r| && key in r[i] && key in r[j]
        ensures r[i][key] != r[j][key]
      {
        if j == |t| {
          assert r[i] == t[i] && !Holds(q, t[i]);
        } else {
          assert r[i] == t[i] && r[j] == t[j];
        }
      }
    }
  }

  /** Creation: stamp the record, then insert it or update the record with its key. */
  function CreateSpec(ts: Tables, subject: string, key: string, newRecord: Doc, now: nat)
    : Result<(Doc, Tables)>
  {
    var rec := Stamp(newRecord, now);
    if key !in rec then Failure(MissingField(key))
    else
      var t := Upsert(TableOf(ts, subject), key, rec);
      UpsertStores(TableOf(ts, subject), key, rec);
      Success((Get(t, FieldIs(key, rec[key])).value, ts[subject := t]))
  }

  /**
   * Creation always succeeds when the new record has its key.  The stored
   * record carries the key, the creation time in whole seconds and every field
   * of the new record; the table grows by one exactly when the key was new, and
   * no other table changes.
   */
  lemma CreateUpserts(ts: Tables, subject: string, key: string, newRecord: Doc, now: nat)
    requires key in newRecord && key != CreatedAt
    ensures CreateSpec(ts, subject, key, newRecord, now).Success?
    ensures var (d, after) := CreateSpec(ts, subject, key, newRecord, now).value;
      var q := FieldIs(key, newRecord[key]);
      && Get(TableOf(after, subject), q) == Some(d)
      && CreatedAt in d && d[CreatedAt] == Time(WholeSeconds(now))
      && (forall f | f in newRecord && f != CreatedAt :: f in d && d[f] == newRecord[f])
      && |TableOf(after, subject)| == |TableOf(ts, subject)| + (if Contains(TableOf(ts, subject), q) then 0 else 1)
      && (forall n | n != subject :: TableOf(after, n) == TableOf(ts, n))
  {
    var rec := Stamp(newRecord, now);
    UpsertStores(TableOf(ts, subject), key, rec);
  }

  /** Records whose key differs from the new record's are left exactly as they were. */
  lemma CreateLeavesOtherRecords(ts: Tables, subject: string, key: string, newRecord: Doc, now: nat)
    requires key in newRecord && key != CreatedAt
    ensures CreateSpec(ts, subject, key, newRecord, now).Success?
    ensures var after := CreateSpec(ts, subject, key, newRecord, now).value.1;
      forall i | 0 <= i < |TableOf(ts, subject)| && !Holds(FieldIs(key, newRecord[key]), TableOf(ts, subject)[i]) ::
        TableOf(after, subject)[i] == TableOf(ts, subject)[i]
  {
  }

  /** Creation keeps the key field unique in the table it writes. */
  lemma CreateKeepsKeysUnique(ts: Tables, subject: string, key: string, newRecord: Doc, now: nat)
    requires key in newRecord && key != CreatedAt
    requires UniqueBy(TableOf(ts, subject), key)
    ensures CreateSpec(ts, subject, key, newRecord, now).Success?
    ensures UniqueBy(TableOf(CreateSpec(ts, subject, key, newRecord, now).value.1, subject), key)
  {
    UpsertKeepsKeysUnique(TableOf(ts, subject), key, Stamp(newRecord, now));
  }

  /** In a table unique by `key`, two records with the same key are the same record. */
  lemma UniqueKeyIdentifies(t: seq<Doc>, key: string, d: Doc, e: Doc)
    requires UniqueBy(t, key)
    requires d in t && e in t && key in d && key in e && d[key] == e[key]
    ensures d == e
  {
    var i :| 0 <= i < |t| && t[i] == d;
    var j :| 0 <= j < |t| && t[j] == e;
    assert !(i < j) && !(j < i);
  }

  /** In a table with unique keys at most one record matches a key value. */
  lemma {:induction false} UniqueKeyMatchesAtMostOnce(t: seq<Doc>, key: string, v: Value)
    requires UniqueBy(t, key)
    ensures |Search(t, FieldIs(key, v))| <= 1
  {
    if t != [] {
      assert UniqueBy(t[1..], key) by {
        forall i, j | 0 <= i < j < |t[1..]| && key in t[1..][i] && key in t[1..][j]
          ensures t[1..][i][key] != t[1..][j][key]
        {
          assert t[1..][i] == t[i + 1] && t[1..][j] == t[j + 1];
        }
      }
      UniqueKeyMatchesAtMostOnce(t[1..], key, v);
      if Holds(FieldIs(key, v), t[0]) {
        forall d | d in t[1..] ensures !Holds(FieldIs(key, v), d) {
          var j :| 0 <= j < |t[1..]| && t[1..][j] == d;
          assert t[j + 1] == d;
        }
        NoMatch(t[1..], FieldIs(key, v));
      }
    }
  }

  /** In a table with unique keys, the search for a present key finds exactly the record `get` returns. */
  lemma UniqueSearchIsGet(t: seq<Doc>, key: string, v: Value)
    requires UniqueBy(t, key)
    requires Contains(t, FieldIs(key, v))
    ensures Search(t, FieldIs(key, v)) == [Get(t, FieldIs(key, v)).value]
  {
    var q := FieldIs(key, v);
    UniqueKeyMatchesAtMostOnce(t, key, v);
    var s := Search(t, q);
    assert Get(t, q).value in s;
    assert s == [s[0]];
  }

  /**
   * Creating under a key no record has yet appends exactly the stamped new
   * record and returns it.
   */
  lemma CreateInsertsFresh(ts: Tables, subject: string, key: string, newRecord: Doc, now: nat)
    requires key in newRecord && key != CreatedAt
    requires !Contains(TableOf(ts, subject), FieldIs(key, newRecord[key]))
    ensures CreateSpec(ts, subject, key, newRecord, now).Success?
    ensures var (d, after) := CreateSpec(ts, subject, key, newRecord, now).value;
      && d == Stamp(newRecord, now)
      && TableOf(after, subject) == TableOf(ts, subject) + [d]
  {
    var t := TableOf(ts, subject);
    var rec := Stamp(newRecord, now);
    var q := FieldIs(key, rec[key]);
    var r := t + [rec];
    assert r[|t|] == rec;
    var d := Get(r, q).value;
    assert forall j | 0 <= j < |t| :: r[j] == t[j] && !Holds(q, r[j]);
  }

  /**
   * Creating twice under the same key leaves exactly one record with that key,
   * holding the second call's fields and creation time.
   */
  lemma CreateTwiceKeepsOne(ts: Tables, subject: string, key: string, first: Doc, second: Doc, t1: nat, t2: nat)
    requires key in first && key in second && key != CreatedAt && first[key] == second[key]
    requires UniqueBy(TableOf(ts, subject), key)
    ensures CreateSpec(ts, subject, key, first, t1).Success?
    ensures var mid := CreateSpec(ts, subject, key, first, t1).value.1;
      && CreateSpec(mid, subject, key, second, t2).Success?
      && var (d, after) := CreateSpec(mid, subject, key, second, t2).value;
      && Search(TableOf(after, subject), FieldIs(key, second[key])) == [d]
      && CreatedAt in d && d[CreatedAt] == Time(WholeSeconds(t2))
      && (forall f | f in second && f != CreatedAt :: f in d && d[f] == second[f])
  {
    CreateKeepsKeysUnique(ts, subject, key, first, t1);
    var mid := CreateSpec(ts, subject, key, first, t1).value.1;
    CreateKeepsKeysUnique(mid, subject, key, second, t2);
    CreateUpserts(mid, subject, key, second, t2);
    var after := CreateSpec(mid, subject, key, second, t2).value.1;
    UniqueSearchIsGet(TableOf(after, subject), key, second[key]);
  }

  /** Update: merge `updates` into every record whose identity field equals `rid`, then read it back. */
  function UpdateSpec(ts: Tables, subject: string, key: string, rid: Value, updates: Doc): (Option<Doc>, Tables)
  {
    var t := Apply(TableOf(ts, subject), FieldIs(key, rid), updates);
    (Get(t, FieldIs(key, rid)), ts[subject := t])
  }

  /** Merging fields other than `key` into the matches leaves the first match first, now merged. */
  lemma {:induction false} GetAfterApply(t: seq<Doc>, key: string, rid: Value, updates: Doc)
    requires key !in updates
    ensures var q := FieldIs(key, rid);
      Get(Apply(t, q, updates), q) == if Get(t, q).Some? then Some(Get(t, q).value + updates) else None
  {
    var q := FieldIs(key, rid);
    if t != [] {
      var a := Apply(t, q, updates);
      assert a == [if Holds(q, t[0]) then t[0] + updates else t[0]] + Apply(t[1..], q, updates);
      assert a[1..] == Apply(t[1..], q, updates);
      if !Holds(q, t[0]) {
        GetAfterApply(t[1..], key, rid, updates);
      }
    }
  }

  /**
   * An update that leaves the identity field alone finds the record exactly
   * when it existed, returns it with the updates merged in, and changes no
   * other record and no other table.
   */
  lemma UpdateMerges(ts: Tables, subject: string, key: string, rid: Value, updates: Doc)
    requires key !in updates
    ensures var (r, after) := UpdateSpec(ts, subject, key, rid, updates);
      var before := TableOf(ts, subject);
      var q := FieldIs(key, rid);
      && (r.Some? <==> Contains(before, q))
      && (r.Some? ==> r.value == Get(before, q).value + updates && Includes(r.value, updates))
      && |TableOf(after, subject)| == |before|
      && (forall i | 0 <= i < |before| && !Holds(q, before[i]) :: TableOf(after, subject)[i] == before[i])
      && (forall n | n != subject :: TableOf(after, n) == TableOf(ts, n))
  {
    GetAfterApply(TableOf(ts, subject), key, rid, updates);
  }

  /** Delete: return the first matching record and remove every match. */
  function DeleteSpec(ts: Tables, subject: string, key: string, rid: Value): (Option<Doc>, Tables)
  {
    var q := FieldIs(key, rid);
    (Get(TableOf(ts, subject), q), ts[subject := Remove(TableOf(ts, subject), q)])
  }

  /**
   * Delete returns the record as it was before removal; afterwards no record
   * of the table has that identity, the removed records are exactly the
   * matching ones, and no other table changes.
   */
  lemma DeleteRemovesMatches(ts: Tables, subject: string, key: string, rid: Value)
    ensures var (r, after) := DeleteSpec(ts, subject, key, rid);
      var before := TableOf(ts, subject);
      var q := FieldIs(key, rid);
      && (r.Some? <==> Contains(before, q))
      && (r.Some? ==> r.value in before && Holds(q, r.value))
      && !Contains(TableOf(after, subject), q)
      && multiset(Search(before, q)) + multiset(TableOf(after, subject)) == multiset(before)
      && (forall n | n != subject :: TableOf(after, n) == TableOf(ts, n))
  {
    var before := TableOf(ts, subject);
    var q := FieldIs(key, rid);
    SearchRemovePartition(before, q);
  }

  /** Create (`Records.create`): the stamped record is upserted in one step. */
  method Create(db: Database, subject: string, key: string, newRecord: Doc, now: nat) returns (r: Result<Doc>)
    modifies db
    ensures var s := CreateSpec(old(db.tables), subject, key, newRecord, now);
      r == Answer(s) && db.tables == After(s, old(db.tables))
  {
    var stamped := newRecord[CreatedAt := Time(WholeSeconds(now))];
    if key !in stamped {
      return Failure(MissingField(key));
    }
    var q := FieldIs(key, stamped[key]);
    var table := TableOf(db.tables, subject);
    if Contains(table, q) {
      table := Apply(table, q, stamped);
    } else {
      table := table + [stamped];
    }
    assert table == Upsert(TableOf(db.tables, subject), key, stamped);
    UpsertStores(TableOf(db.tables, subject), key, stamped);
    db.tables := db.tables[subject := table];
    var got := Get(table, q);
    r := Success(got.value);
  }

  /** Read all: every record of the table, in storage order. */
  method ReadAll(db: Database, subject: string) returns (records: seq<Doc>)
    ensures records == TableOf(db.tables, subject)
  {
    records := TableOf(db.tables, subject);
  }

  /** Read: the first record whose identity field equals `rid`. */
  method Read(db: Database, subject: string, key: string, rid: Value) returns (r: Option<Doc>)
    ensures r == Get(TableOf(db.tables, subject), FieldIs(key, rid))
    ensures r.Some? ==> r.value in TableOf(db.tables, subject) && Holds(FieldIs(key, rid), r.value)
  {
    r := Get(TableOf(db.tables, subject), FieldIs(key, rid));
  }

  /** Update (`Records.update`): merge into the matches, then read the first back. */
  method Update(db: Database, subject: string, key: string, rid: Value, updates: Doc) returns (r: Option<Doc>)
    modifies db
    ensures (r, db.tables) == UpdateSpec(old(db.tables), subject, key, rid, updates)
  {
    var q := FieldIs(key, rid);
    var table := Apply(TableOf(db.tables, subject), q, updates);
    db.tables := db.tables[subject := table];
    r := Get(table, q);
  }

  /** Delete (`Records.delete`): snapshot the record, remove every match, check none is left. */
  method Delete(db: Database, subject: string, key: string, rid: Value) returns (r: Option<Doc>)
    modifies db
    ensures (r, db.tables) == DeleteSpec(old(db.tables), subject, key, rid)
    ensures !Contains(TableOf(db.tables, subject), FieldIs(key, rid))
  {
    var q := FieldIs(key, rid);
    r := Get(TableOf(db.tables, subject), q);
    var table := Remove(TableOf(db.tables, subject), q);
    db.tables := db.tables[subject := table];
    DeleteRemovesMatches(old(db.tables), subject, key, rid);
    assert Get(TableOf(db.tables, subject), q) == None;
  }
}
