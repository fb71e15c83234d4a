/**
 * The relational layer (`TopicalRecords`): records of one subject are
 * identified by their composite `key`; reads expand a record with the records
 * of its downstream relation subjects that share its identifier value, and
 * delete removes those downstream records before the record itself.
 */
module Topical {
  import opened Store
  import Records

  const KeyField: string := "key"

  /** A subject's static configuration: its table, identifier field and downstream relation subjects. */
  datatype Topic = Topic(subject: string, identifier: string, relations: seq<string>)

  /** A record as a read returns it, with the `relations` computed at read time. */
  datatype Expanded = Expanded(record: Doc, relations: map<string, seq<Doc>>)

  /** `rid[identifier]` can be taken. */
  predicate Identifies(t: Topic, rid: Value)
  {
    rid.Obj? && t.identifier in rid.fields
  }

  /** `where(key)[identifier] == rid[identifier]`. */
  function RelatedQuery(t: Topic, rid: Value, key: string): Query
    requires Identifies(t, rid)
  {
    SubFieldIs(key, t.identifier, rid.fields[t.identifier])
  }

  /**
   * The related records of identity `rid`: one entry per relation subject,
   * holding exactly the records of that subject's table whose `key` field has
   * the identifier value of `rid`.  Taking `rid[identifier]` fails only when
   * some relation subject is configured.
   */
  function Related(ts: Tables, t: Topic, rid: Value, key: string): (r: Result<map<string, seq<Doc>>>)
    ensures r.Success? <==> t.relations == [] || Identifies(t, rid)
    ensures r.Success? ==> r.value.Keys == set s | s in t.relations
  {
    if t.relations == [] then Success(map[])
    else if !Identifies(t, rid) then Failure(MissingField(t.identifier))
    else Success(map s | s in t.relations :: Search(TableOf(ts, s), RelatedQuery(t, rid, key)))
  }

  /**
   * Each entry of the related records holds exactly the records of that
   * subject's table that share the identifier value, in storage order.
   */
  lemma RelatedFindsMatches(ts: Tables, t: Topic, rid: Value, key: string, s: string)
    requires Related(ts, t, rid, key).Success? && s in t.relations
    ensures Identifies(t, rid)
    ensures Related(ts, t, rid, key).value[s] == Search(TableOf(ts, s), RelatedQuery(t, rid, key))
    ensures forall d :: d in Related(ts, t, rid, key).value[s] <==> d in TableOf(ts, s) && Holds(RelatedQuery(t, rid, key), d)
  {
  }

  /** The record with its `relations`, found through its own field `key`. */
  function Expand(ts: Tables, t: Topic, record: Doc, key: string): (r: Result<Expanded>)
    ensures r.Success? ==> r.value.record == record && r.value.relations.Keys == set s | s in t.relations
  {
    if key !in record then Failure(MissingField(key))
    else
      match Related(ts, t, record[key], key)
      case Failure(e) => Failure(e)
      case Success(rel) => Success(Expanded(record, rel))
  }

  /** `_get_related_metadata`: one search per relation subject. */
  method GetRelatedMetadata(db: Database, t: Topic, rid: Value, key: string) returns (r: Result<map<string, seq<Doc>>>)
    ensures r == Related(db.tables, t, rid, key)
  {
    if t.relations == [] {
      return Success(map[]);
    }
    var all: map<string, seq<Doc>> := map[];
    var i := 0;
    while i < |t.relations|
      invariant 0 <= i <= |t.relations|
      invariant i > 0 ==> Identifies(t, rid)
      invariant forall s :: s in all <==> s in t.relations[..i]
      invariant forall s | s in all :: all[s] == Search(TableOf(db.tables, s), RelatedQuery(t, rid, key))
    {
      if !Identifies(t, rid) {
        return Failure(MissingField(t.identifier));
      }
      var subject := t.relations[i];
      var related := Search(TableOf(db.tables, subject), SubFieldIs(key, t.identifier, rid.fields[t.identifier]));
      all := all[subject := related];
      assert t.relations[..i + 1] == t.relations[..i] + [subject];
      i := i + 1;
    }
    assert t.relations[..i] == t.relations;
    var expected := map s | s in t.relations :: Search(TableOf(db.tables, s), RelatedQuery(t, rid, key));
    assert all == expected;
    r := Success(all);
  }

  /** `_expand_record`. */
  method ExpandRecord(db: Database, t: Topic, record: Doc, key: string) returns (r: Result<Expanded>)
    ensures r == Expand(db.tables, t, record, key)
  {
    if key !in record {
      return Failure(MissingField(key));
    }
    var related := GetRelatedMetadata(db, t, record[key], key);
    if related.Failure? {
      return Failure(related.error);
    }
    r := Success(Expanded(record, related.value));
  }

  /**
   * The bulk-read filter: a record is kept when the filter's pairs are among
   * those of its `key`, or of its field `fkey`, or of the record itself, checked
   * in that order; a test reaching a missing or non-mapping field fails.
   */
  function Keeps(filter: map<string, Value>, d: Doc, fkey: string): (r: Result<bool>)
    ensures r.Success? ==> (r.value <==>
      || (KeyField in d && d[KeyField].Obj? && SubMap(filter, d[KeyField].fields))
      || (fkey in d && d[fkey].Obj? && SubMap(filter, d[fkey].fields))
      || SubMap(filter, d))
    ensures r.Failure? <==>
      || !(KeyField in d && d[KeyField].Obj?)
      || (!SubMap(filter, d[KeyField].fields) && !(fkey in d && d[fkey].Obj?))
  {
    match FieldItems(d, KeyField)
    case None => Failure(MissingField(KeyField))
    case Some(k) =>
      if SubMap(filter, k) then Success(true)
      else
        match FieldItems(d, fkey)
        case None => Failure(MissingField(fkey))
        case Some(f) => Success(SubMap(filter, f) || SubMap(filter, d))
  }

  /** An empty filter keeps every record that has a `key` mapping. */
  lemma EmptyFilterKeeps(d: Doc, fkey: string)
    requires KeyField in d && d[KeyField].Obj?
    ensures Keeps(map[], d, fkey) == Success(true)
  {
  }

  /** The outcome of `read_all` over the records `docs`, processed in order. */
  function Select(ts: Tables, t: Topic, docs: seq<Doc>, fkey: string, filter: map<string, Value>): Result<seq<Expanded>>
    decreases |docs|
  {
    if docs == [] then Success([])
    else
      match Select(ts, t, docs[..|docs| - 1], fkey, filter)
      case Failure(e) => Failure(e)
      case Success(acc) =>
        var d := docs[|docs| - 1];
        match Keeps(filter, d, fkey)
        case Failure(e) => Failure(e)
        case Success(keep) =>
          if !keep then Success(acc)
          else
            match Expand(ts, t, d, fkey)
            case Failure(e) => Failure(e)
            case Success(x) => Success(acc + [x])
  }

  /** The records of `docs` the filter keeps, in storage order. */
  function Kept(docs: seq<Doc>, fkey: string, filter: map<string, Value>): seq<Doc>
    decreases |docs|
  {
    if docs == [] then []
    else
      var d := docs[|docs| - 1];
      Kept(docs[..|docs| - 1], fkey, filter) + (if Keeps(filter, d, fkey) == Success(true) then [d] else [])
  }

  /**
   * A successful bulk read returns, expanded, exactly the records the filter
   * keeps: each returned record is one of the table's and passes the filter,
   * and each record passing the filter is returned, with its related records.
   */
  lemma {:induction false} SelectKeepsExactly(ts: Tables, t: Topic, docs: seq<Doc>, fkey: string, filter: map<string, Value>)
    requires Select(ts, t, docs, fkey, filter).Success?
    ensures var xs := Select(ts, t, docs, fkey, filter).value;
      && (forall x | x in xs :: x.record in docs && Keeps(filter, x.record, fkey) == Success(true) &&
                                x.relations.Keys == set s | s in t.relations)
      && (forall d | d in docs :: Keeps(filter, d, fkey) == Success(true) ==> exists x | x in xs :: x.record == d)
      && (forall x | x in xs :: Expand(ts, t, x.record, fkey) == Success(x))
  {
    if docs != [] {
      var init := docs[..|docs| - 1];
      SelectKeepsExactly(ts, t, init, fkey, filter);
      assert docs == init + [docs[|docs| - 1]];
    }
  }

  /** A successful bulk read returns the kept records once each, in storage order. */
  lemma {:induction false} SelectKeepsOrder(ts: Tables, t: Topic, docs: seq<Doc>, fkey: string, filter: map<string, Value>)
    requires Select(ts, t, docs, fkey, filter).Success?
    ensures var xs := Select(ts, t, docs, fkey, filter).value;
      && |xs| == |Kept(docs, fkey, filter)|
      && forall i | 0 <= i < |xs| :: xs[i].record == Kept(docs, fkey, filter)[i]
  {
    if docs != [] {
      SelectKeepsOrder(ts, t, docs[..|docs| - 1], fkey, filter);
    }
  }

  /** Once a prefix of the records makes the bulk read fail, the whole read fails the same way. */
  lemma {:induction false} SelectFailureSticks(ts: Tables, t: Topic, docs: seq<Doc>, fkey: string, filter: map<string, Value>, k: nat)
    requires k <= |docs| && Select(ts, t, docs[..k], fkey, filter).Failure?
    ensures Select(ts, t, docs, fkey, filter) == Select(ts, t, docs[..k], fkey, filter)
    decreases |docs| - k
  {
    if k < |docs| {
      assert docs[..k + 1][..k] == docs[..k];
      SelectFailureSticks(ts, t, docs, fkey, filter, k + 1);
    } else {
      assert docs[..k] == docs;
    }
  }

  /** With an empty filter every record of the table is returned, in storage order. */
  lemma {:induction false} SelectEmptyFilterKeepsAll(ts: Tables, t: Topic, docs: seq<Doc>, fkey: string)
    requires forall d: Doc | d in docs :: KeyField in d && d[KeyField].Obj? && Expand(ts, t, d, fkey).Success?
    ensures Select(ts, t, docs, fkey, map[]).Success?
    ensures var xs := Select(ts, t, docs, fkey, map[]).value;
      |xs| == |docs| && forall i | 0 <= i < |xs| :: xs[i].record == docs[i]
  {
    if docs != [] {
      var init := docs[..|docs| - 1];
      var d := docs[|docs| - 1];
      assert forall e | e in init :: e in docs;
      SelectEmptyFilterKeepsAll(ts, t, init, fkey);
      EmptyFilterKeeps(d, fkey);
      var acc := Select(ts, t, init, fkey, map[]).value;
      assert Select(ts, t, docs, fkey, map[]) == Success(acc + [Expand(ts, t, d, fkey).value]);
    }
  }

  /** `read`: the record with key `rid`, expanded through its field `fkey`; `None` when absent. */
  function ReadSpec(ts: Tables, t: Topic, rid: Value, fkey: string): Result<Option<Expanded>>
  {
    match Get(TableOf(ts, t.subject), FieldIs(KeyField, rid))
    case None => Success(None)
    case Some(d) =>
      match Expand(ts, t, d, fkey)
      case Failure(e) => Failure(e)
      case Success(x) => Success(Some(x))
  }

  /**
   * A read finds something exactly when a record has the key, and what it
   * finds is the first such record, carrying that key.
   */
  lemma ReadFindsByKey(ts: Tables, t: Topic, rid: Value, fkey: string)
    ensures var r := ReadSpec(ts, t, rid, fkey);
      && (r.Success? ==> (r.value.Some? <==> Contains(TableOf(ts, t.subject), FieldIs(KeyField, rid))))
      && (r.Success? && r.value.Some? ==>
            && r.value.value.record == Get(TableOf(ts, t.subject), FieldIs(KeyField, rid)).value
            && KeyField in r.value.value.record && r.value.value.record[KeyField] == rid)
      && (r.Success? && r.value.Some? && t.relations != [] ==>
            && fkey in r.value.value.record && Identifies(t, r.value.value.record[fkey])
            && forall s | s in t.relations ::
                 r.value.value.relations[s] == Search(TableOf(ts, s), RelatedQuery(t, r.value.value.record[fkey], fkey)))
  {
  }

  /** `create`: upsert by `key`. */
  function CreateSpec(ts: Tables, t: Topic, newRecord: Doc, now: nat): Result<(Doc, Tables)>
  {
    Records.CreateSpec(ts, t.subject, KeyField, newRecord, now)
  }

  /** An entity's new record: `{'key': key}` updated with its details. */
  function NewRecord(key: Value, details: Doc): (d: Doc)
    ensures KeyField in d && d.Keys == details.Keys + {KeyField}
    ensures KeyField !in details ==> d[KeyField] == key && d - {KeyField} == details
    ensures forall f | f in details :: d[f] == details[f]
  {
    map[KeyField := key] + details
  }

  /**
   * Creating an entity's record stores it under its generated key with all of
   * its details, and a read of the key finds it; when the key was new, taking
   * `key` and `created_at` off the stored record gives back the details.
   */
  lemma CreateReturnsDetails(ts: Tables, t: Topic, key: Value, details: Doc, now: nat)
    requires KeyField !in details
    ensures CreateSpec(ts, t, NewRecord(key, details), now).Success?
    ensures var (d, after) := CreateSpec(ts, t, NewRecord(key, details), now).value;
      && KeyField in d && d[KeyField] == key
      && Includes(d, details - {Records.CreatedAt})
      && Get(TableOf(after, t.subject), FieldIs(KeyField, key)) == Some(d)
      && (!Contains(TableOf(ts, t.subject), FieldIs(KeyField, key)) ==>
            d - {KeyField, Records.CreatedAt} == details - {Records.CreatedAt})
  {
    var rec := NewRecord(key, details);
    Records.CreateUpserts(ts, t.subject, KeyField, rec, now);
    if !Contains(TableOf(ts, t.subject), FieldIs(KeyField, key)) {
      Records.CreateInsertsFresh(ts, t.subject, KeyField, rec, now);
    }
  }

  /** `update`: refused when the updates touch `key`. */
  function UpdateSpec(ts: Tables, t: Topic, rid: Value, updates: Doc): Result<(Option<Doc>, Tables)>
  {
    if KeyField in updates then Failure(ImmutableField(KeyField))
    else Success(Records.UpdateSpec(ts, t.subject, KeyField, rid, updates))
  }

  /**
   * An update touching `key` fails and writes nothing; any other update
   * succeeds, merges into the record with key `rid`, returns `None` exactly
   * when there is none, and leaves every other record and table unchanged.
   */
  lemma UpdateGuardsKey(ts: Tables, t: Topic, rid: Value, updates: Doc)
    ensures var s := UpdateSpec(ts, t, rid, updates);
      && (s.Failure? <==> KeyField in updates)
      && (s.Failure? ==> After(s, ts) == ts)
      && (s.Success? ==>
            var (r, after) := s.value;
            var before := TableOf(ts, t.subject);
            var q := FieldIs(KeyField, rid);
            && (r.Some? <==> Contains(before, q))
            && (r.Some? ==> r.value == Get(before, q).value + updates)
            && (forall i | 0 <= i < |before| && !Holds(q, before[i]) :: TableOf(after, t.subject)[i] == before[i])
            && (forall n | n != t.subject :: TableOf(after, n) == TableOf(ts, n)))
  {
    if KeyField !in updates {
      Records.UpdateMerges(ts, t.subject, KeyField, rid, updates);
    }
  }

  /** Remove the records matching `q` from each table of `rels`, in order. */
  function Cascade(ts: Tables, rels: seq<string>, q: Query): Tables
    decreases |rels|
  {
    if rels == [] then ts
    else Cascade(ts[rels[0] := Remove(TableOf(ts, rels[0]), q)], rels[1..], q)
  }

  /** After a cascade every listed table has lost exactly its matches, and every other table is untouched. */
  lemma {:induction false} CascadeClosedForm(ts: Tables, rels: seq<string>, q: Query)
    ensures forall n :: TableOf(Cascade(ts, rels, q), n) == if n in rels then Remove(TableOf(ts, n), q) else TableOf(ts, n)
    decreases |rels|
  {
    if rels != [] {
      var ts1 := ts[rels[0] := Remove(TableOf(ts, rels[0]), q)];
      CascadeClosedForm(ts1, rels[1..], q);
      RemoveIdempotent(TableOf(ts, rels[0]), q);
      forall n ensures TableOf(Cascade(ts, rels, q), n) == if n in rels then Remove(TableOf(ts, n), q) else TableOf(ts, n) {
        assert n in rels <==> n == rels[0] || n in rels[1..];
      }
    }
  }

  /** `delete`: expand the record, cascade into every relation subject, then remove the record. */
  function DeleteSpec(ts: Tables, t: Topic, rid: Value, key: string): Result<(Expanded, Tables)>
  {
    match Get(TableOf(ts, t.subject), FieldIs(key, rid))
    case None => Failure(MissingRecord)
    case Some(main) =>
      match Expand(ts, t, main, key)
      case Failure(e) => Failure(e)
      case Success(x) =>
        var cascaded := if t.relations == [] then ts else Cascade(ts, t.relations, RelatedQuery(t, rid, key));
        Success((x, cascaded[t.subject := Remove(TableOf(cascaded, t.subject), FieldIs(key, rid))]))
  }

  /**
   * Cascading delete succeeds exactly when the record exists and, if relations
   * are configured, its identity has the identifier field.
   */
  lemma DeleteSucceedsIff(ts: Tables, t: Topic, rid: Value, key: string)
    ensures DeleteSpec(ts, t, rid, key).Success? <==>
      Contains(TableOf(ts, t.subject), FieldIs(key, rid)) && (t.relations == [] || Identifies(t, rid))
  {
    if Contains(TableOf(ts, t.subject), FieldIs(key, rid)) {
      var main := Get(TableOf(ts, t.subject), FieldIs(key, rid)).value;
      assert main[key] == rid;
    }
  }

  /**
   * A successful cascading delete returns the record as it was, the record
   * leaves its own table while every other record of that table stays in
   * place, and every table that is neither a relation subject nor the
   * record's own is unchanged.
   */
  lemma DeleteRemovesRecord(ts: Tables, t: Topic, rid: Value, key: string)
    requires DeleteSpec(ts, t, rid, key).Success?
    ensures var (x, after) := DeleteSpec(ts, t, rid, key).value;
      && x.record == Get(TableOf(ts, t.subject), FieldIs(key, rid)).value
      && !Contains(TableOf(after, t.subject), FieldIs(key, rid))
      && (forall n | n !in t.relations && n != t.subject :: TableOf(after, n) == TableOf(ts, n))
      && (t.subject !in t.relations ==> TableOf(after, t.subject) == Remove(TableOf(ts, t.subject), FieldIs(key, rid)))
  {
    var q := FieldIs(key, rid);
    if t.relations != [] {
      CascadeClosedForm(ts, t.relations, RelatedQuery(t, rid, key));
    }
    var cascaded := if t.relations == [] then ts else Cascade(ts, t.relations, RelatedQuery(t, rid, key));
    var left := Remove(TableOf(cascaded, t.subject), q);
    forall i | 0 <= i < |left| ensures !Holds(q, left[i]) {
      assert left[i] in left;
    }
  }

  /**
   * In a successful cascading delete every relation table loses exactly the
   * records sharing the identifier value, and those are the records listed
   * under `relations` in the returned record: the two together make up the
   * table as it was.
   */
  lemma DeleteCascadesExactly(ts: Tables, t: Topic, rid: Value, key: string)
    requires DeleteSpec(ts, t, rid, key).Success? && t.relations != []
    ensures var (x, after) := DeleteSpec(ts, t, rid, key).value;
      forall n | n in t.relations && n != t.subject ::
        && TableOf(after, n) == Remove(TableOf(ts, n), RelatedQuery(t, rid, key))
        && x.relations[n] == Search(TableOf(ts, n), RelatedQuery(t, rid, key))
        && multiset(x.relations[n]) + multiset(TableOf(after, n)) == multiset(TableOf(ts, n))
  {
    var (x, after) := DeleteSpec(ts, t, rid, key).value;
    var cq := RelatedQuery(t, rid, key);
    CascadeClosedForm(ts, t.relations, cq);
    forall n | n in t.relations && n != t.subject
      ensures multiset(x.relations[n]) + multiset(TableOf(after, n)) == multiset(TableOf(ts, n))
    {
      SearchRemovePartition(TableOf(ts, n), cq);
    }
  }

  /** A cascading delete only takes records away: whatever any table holds afterwards, it held before. */
  lemma DeleteOnlyRemoves(ts: Tables, t: Topic, rid: Value, key: string)
    requires DeleteSpec(ts, t, rid, key).Success?
    ensures forall n, d | d in TableOf(DeleteSpec(ts, t, rid, key).value.1, n) :: d in TableOf(ts, n)
  {
    var after := DeleteSpec(ts, t, rid, key).value.1;
    var cascaded := if t.relations == [] then ts else Cascade(ts, t.relations, RelatedQuery(t, rid, key));
    if t.relations != [] {
      CascadeClosedForm(ts, t.relations, RelatedQuery(t, rid, key));
    }
    forall n, d | d in TableOf(after, n) ensures d in TableOf(ts, n) {
      assert d in TableOf(cascaded, n);
    }
  }

  /**
   * After a successful cascading delete, no record of a relation subject whose
   * key shares the deleted identity's identifier value is left, so a read of
   * any such child key finds nothing.
   */
  lemma DeleteClearsChildren(ts: Tables, t: Topic, rid: Value, child: Topic, childKey: Value, fkey: string)
    requires DeleteSpec(ts, t, rid, KeyField).Success?
    requires child.subject in t.relations && child.subject != t.subject
    requires Identifies(t, rid) && Identifies(t, childKey) && childKey.fields[t.identifier] == rid.fields[t.identifier]
    ensures !Contains(TableOf(DeleteSpec(ts, t, rid, KeyField).value.1, child.subject), FieldIs(KeyField, childKey))
    ensures ReadSpec(DeleteSpec(ts, t, rid, KeyField).value.1, child, childKey, fkey) == Success(None)
  {
    DeleteCascadesExactly(ts, t, rid, KeyField);
    var left := TableOf(DeleteSpec(ts, t, rid, KeyField).value.1, child.subject);
    forall i | 0 <= i < |left| ensures !Holds(FieldIs(KeyField, childKey), left[i]) {
      assert left[i] in left;
    }
  }

  /**
   * After a successful cascading delete, no relation table holds a record
   * sharing the deleted identity's identifier value.
   */
  lemma DeleteLeavesNoRelated(ts: Tables, t: Topic, rid: Value, key: string)
    requires DeleteSpec(ts, t, rid, key).Success?
    requires t.subject !in t.relations && Identifies(t, rid)
    ensures forall n, d | n in t.relations && d in TableOf(DeleteSpec(ts, t, rid, key).value.1, n) ::
      !Holds(RelatedQuery(t, rid, key), d)
  {
    if t.relations != [] {
      DeleteCascadesExactly(ts, t, rid, key);
    }
  }

  /** `create`. */
  method Create(db: Database, t: Topic, newRecord: Doc, now: nat) returns (r: Result<Doc>)
    modifies db
    ensures var s := CreateSpec(old(db.tables), t, newRecord, now);
      r == Answer(s) && db.tables == After(s, old(db.tables))
  {
    r := Records.Create(db, t.subject, KeyField, newRecord, now);
  }

  /** `read_all`: the records the filter keeps, each expanded through `fkey`. */
  method ReadAll(db: Database, t: Topic, fkey: string, filter: map<string, Value>) returns (r: Result<seq<Expanded>>)
    ensures r == Select(db.tables, t, TableOf(db.tables, t.subject), fkey, filter)
  {
    var all := Records.ReadAll(db, t.subject);
    var expanded: seq<Expanded> := [];
    var i := 0;
    while i < |all|
      invariant 0 <= i <= |all|
      invariant Select(db.tables, t, all[..i], fkey, filter) == Success(expanded)
    {
      var record := all[i];
      assert all[..i + 1][..i] == all[..i];
      var keep := Keeps(filter, record, fkey);
      if keep.Failure? {
        SelectFailureSticks(db.tables, t, all, fkey, filter, i + 1);
        return Failure(keep.error);
      }
      if keep.value {
        var x := ExpandRecord(db, t, record, fkey);
        if x.Failure? {
          SelectFailureSticks(db.tables, t, all, fkey, filter, i + 1);
          return Failure(x.error);
        }
        expanded := expanded + [x.value];
      }
      i := i + 1;
    }
    assert all[..i] == all;
    r := Success(expanded);
  }

  /** `read`. */
  method Read(db: Database, t: Topic, rid: Value, fkey: string) returns (r: Result<Option<Expanded>>)
    ensures r == ReadSpec(db.tables, t, rid, fkey)
  {
    var main := Records.Read(db, t.subject, KeyField, rid);
    if main.None? {
      return Success(None);
    }
    var x := ExpandRecord(db, t, main.value, fkey);
    if x.Failure? {
      return Failure(x.error);
    }
    r := Success(Some(x.value));
  }

  /** `update`. */
  method Update(db: Database, t: Topic, rid: Value, updates: Doc) returns (r: Result<Option<Doc>>)
    modifies db
    ensures var s := UpdateSpec(old(db.tables), t, rid, updates);
      r == Answer(s) && db.tables == After(s, old(db.tables))
  {
    if KeyField in updates {
      return Failure(ImmutableField(KeyField));
    }
    var updated := Records.Update(db, t.subject, KeyField, rid, updates);
    r := Success(updated);
  }

  /** The cascading part of `delete`: every relation table loses the records matching `q`. */
  method CascadeDelete(db: Database, rels: seq<string>, q: Query)
    modifies db
    ensures db.tables == Cascade(old(db.tables), rels, q)
    ensures forall n | n in rels :: !Contains(TableOf(db.tables, n), q)
  {
    ghost var before := db.tables;
    var i := 0;
    while i < |rels|
      invariant 0 <= i <= |rels|
      invariant Cascade(db.tables, rels[i..], q) == Cascade(before, rels, q)
    {
      var subject := rels[i];
      db.tables := db.tables[subject := Remove(TableOf(db.tables, subject), q)];
      assert rels[i..][1..] == rels[i + 1..];
      i := i + 1;
    }
    assert rels[i..] == [];
    CascadeClosedForm(before, rels, q);
    forall n, j | n in rels && 0 <= j < |TableOf(db.tables, n)| ensures !Holds(q, TableOf(db.tables, n)[j]) {
      assert TableOf(db.tables, n)[j] in TableOf(db.tables, n);
    }
  }

  /** `delete`, with the source's post-deletion checks as assertions. */
  method Delete(db: Database, t: Topic, rid: Value, key: string) returns (r: Result<Expanded>)
    modifies db
    ensures var s := DeleteSpec(old(db.tables), t, rid, key);
      r == Answer(s) && db.tables == After(s, old(db.tables))
  {
    var main := Get(TableOf(db.tables, t.subject), FieldIs(key, rid));
    if main.None? {
      return Failure(MissingRecord);
    }
    var expanded := ExpandRecord(db, t, main.value, key);
    if expanded.Failure? {
      return Failure(expanded.error);
    }
    if t.relations != [] {
      var q := SubFieldIs(key, t.identifier, rid.fields[t.identifier]);
      ghost var archived := expanded.value.relations;
      assert forall s | s in archived :: forall d | d in archived[s] :: Holds(q, d);
      CascadeDelete(db, t.relations, q);
      // every archived related record is gone and carries the identifier value
      assert forall s | s in archived :: forall d | d in archived[s] :: d !in TableOf(db.tables, s);
    }
    db.tables := db.tables[t.subject := Remove(TableOf(db.tables, t.subject), FieldIs(key, rid))];
    assert main.value[key] == rid;
    r := Success(expanded.value);
  }

  /** A record created with relations it can be expanded by is found by a read of its key. */
  lemma CreateThenRead(ts: Tables, t: Topic, newRecord: Doc, now: nat, fkey: string)
    requires KeyField in newRecord && fkey in newRecord && fkey != Records.CreatedAt
    requires t.relations == [] || Identifies(t, newRecord[fkey])
    ensures CreateSpec(ts, t, newRecord, now).Success?
    ensures var after := CreateSpec(ts, t, newRecord, now).value.1;
      && ReadSpec(after, t, newRecord[KeyField], fkey).Success?
      && ReadSpec(after, t, newRecord[KeyField], fkey).value.Some?
      && Includes(ReadSpec(after, t, newRecord[KeyField], fkey).value.value.record, newRecord - {Records.CreatedAt})
  {
    Records.CreateUpserts(ts, t.subject, KeyField, newRecord, now);
  }

  /**
   * An entity created under a fresh key reads back as exactly the stored
   * record, which minus `key` and `created_at` is its details; once deleted
   * it reads back as nothing.
   */
  lemma RoundTrip(ts: Tables, t: Topic, key: Value, details: Doc, now: nat)
    requires KeyField !in details && Records.CreatedAt !in details
    requires t.relations == [] || Identifies(t, key)
    requires !Contains(TableOf(ts, t.subject), FieldIs(KeyField, key))
    ensures CreateSpec(ts, t, NewRecord(key, details), now).Success?
    ensures var (d, mid) := CreateSpec(ts, t, NewRecord(key, details), now).value;
      && ReadSpec(mid, t, key, KeyField).Success?
      && ReadSpec(mid, t, key, KeyField).value.Some?
      && ReadSpec(mid, t, key, KeyField).value.value.record == d
      && d - {KeyField, Records.CreatedAt} == details
      && DeleteSpec(mid, t, key, KeyField).Success?
      && ReadSpec(DeleteSpec(mid, t, key, KeyField).value.1, t, key, KeyField) == Success(None)
  {
    CreateReturnsDetails(ts, t, key, details, now);
    var mid := CreateSpec(ts, t, NewRecord(key, details), now).value.1;
    ReadFindsByKey(mid, t, key, KeyField);
    DeleteSucceedsIff(mid, t, key, KeyField);
    DeleteThenRead(mid, t, key, KeyField);
  }

  /** After a successful delete, reading the same key finds nothing. */
  lemma DeleteThenRead(ts: Tables, t: Topic, rid: Value, fkey: string)
    requires DeleteSpec(ts, t, rid, KeyField).Success?
    ensures ReadSpec(DeleteSpec(ts, t, rid, KeyField).value.1, t, rid, fkey) == Success(None)
  {
    DeleteRemovesRecord(ts, t, rid, KeyField);
  }
}
