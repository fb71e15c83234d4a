/**
 * The association layer (`AssociationRecords`): a record inherits the
 * `link`s of the upstream records that share its `key`, merged with a fresh
 * link of its own, and reads and cascading deletes follow those links rather
 * than the key.
 */
module Association {
  import opened Store
  import Records
  import Topical

  const LinkField: string := "link"

  /** A subject's configuration plus the upstream subjects it inherits links from. */
  datatype Assoc = Assoc(topic: Topical.Topic, associations: seq<string>)

  /** The upstream records of `subject` that share the key value `key`. */
  function Upstream(ts: Tables, subject: string, key: Value): seq<Doc>
  {
    Search(TableOf(ts, subject), FieldIs(Topical.KeyField, key))
  }

  /**
   * The link accumulated over the upstream subjects `assocs`, in order: each
   * subject may hold at most one record with the key, and that record's own
   * link mapping is merged in.
   */
  function Accumulate(ts: Tables, assocs: seq<string>, key: Value, link: map<string, Value>): Result<map<string, Value>>
    decreases |assocs|
  {
    if assocs == [] then Success(link)
    else
      var found := Upstream(ts, assocs[0], key);
      if |found| > 1 then Failure(AmbiguousAssociation(assocs[0]))
      else if found == [] then Accumulate(ts, assocs[1..], key, link)
      else
        match FieldItems(found[0], LinkField)
        case None => Failure(MissingField(LinkField))
        case Some(ext) => Accumulate(ts, assocs[1..], key, link + ext)
  }

  /** Every upstream record found for `key` among `assocs` carries a link mapping. */
  predicate UpstreamLinked(ts: Tables, assocs: seq<string>, key: Value)
  {
    forall s | s in assocs :: forall d: Doc | d in Upstream(ts, s, key) :: LinkField in d && d[LinkField].Obj?
  }

  /** No upstream link found for `key` among `assocs` names the field `f`. */
  predicate UpstreamSilentOn(ts: Tables, assocs: seq<string>, key: Value, f: string)
  {
    forall s | s in assocs :: forall d: Doc | d in Upstream(ts, s, key) :: !(LinkField in d && d[LinkField].Obj? && f in d[LinkField].fields)
  }

  /**
   * Accumulation succeeds exactly when every upstream subject holds at most
   * one record with the key and each such record has a link mapping.
   */
  lemma {:induction false} AccumulateSucceeds(ts: Tables, assocs: seq<string>, key: Value, link: map<string, Value>)
    ensures Accumulate(ts, assocs, key, link).Success? <==>
      (forall s | s in assocs :: |Upstream(ts, s, key)| <= 1) && UpstreamLinked(ts, assocs, key)
    decreases |assocs|
  {
    if assocs != [] {
      var found := Upstream(ts, assocs[0], key);
      var rest := assocs[1..];
      assert forall s | s in assocs :: s == assocs[0] || s in rest;
      assert forall s | s in rest :: s in assocs;
      if |found| == 1 {
        assert found == [found[0]];
        match FieldItems(found[0], LinkField)
        case None =>
          assert found[0] in found;
        case Some(ext) =>
          AccumulateSucceeds(ts, rest, key, link + ext);
      } else if found == [] {
        AccumulateSucceeds(ts, rest, key, link);
      }
    }
  }

  /** The accumulated link keeps every field of the seed. */
  lemma {:induction false} AccumulateGrows(ts: Tables, assocs: seq<string>, key: Value, link: map<string, Value>)
    requires Accumulate(ts, assocs, key, link).Success?
    ensures link.Keys <= Accumulate(ts, assocs, key, link).value.Keys
    decreases |assocs|
  {
    if assocs != [] {
      var found := Upstream(ts, assocs[0], key);
      if found == [] {
        AccumulateGrows(ts, assocs[1..], key, link);
      } else {
        AccumulateGrows(ts, assocs[1..], key, link + FieldItems(found[0], LinkField).value);
      }
    }
  }

  /** The accumulated link keeps every field of the link of an upstream record it found. */
  lemma {:induction false} AccumulateCollectsFrom(ts: Tables, assocs: seq<string>, key: Value, link: map<string, Value>, s: string, d: Doc)
    requires Accumulate(ts, assocs, key, link).Success?
    requires s in assocs && d in Upstream(ts, s, key)
    ensures LinkField in d && d[LinkField].Obj? && d[LinkField].fields.Keys <= Accumulate(ts, assocs, key, link).value.Keys
    decreases |assocs|
  {
    var found := Upstream(ts, assocs[0], key);
    var rest := assocs[1..];
    var next := if found == [] then link else link + FieldItems(found[0], LinkField).value;
    assert Accumulate(ts, assocs, key, link) == Accumulate(ts, rest, key, next);
    if s == assocs[0] {
      assert found == [found[0]];
      assert d == found[0];
      assert FieldItems(d, LinkField).Some?;
      AccumulateGrows(ts, rest, key, next);
    } else {
      assert s in rest;
      AccumulateCollectsFrom(ts, rest, key, next, s, d);
    }
  }

  /** A seed field that no upstream link names keeps its seed value. */
  lemma {:induction false} AccumulateKeepsSeed(ts: Tables, assocs: seq<string>, key: Value, link: map<string, Value>, f: string)
    requires Accumulate(ts, assocs, key, link).Success?
    requires f in link && UpstreamSilentOn(ts, assocs, key, f)
    ensures f in Accumulate(ts, assocs, key, link).value && Accumulate(ts, assocs, key, link).value[f] == link[f]
    decreases |assocs|
  {
    if assocs != [] {
      var found := Upstream(ts, assocs[0], key);
      var rest := assocs[1..];
      assert forall s | s in rest :: s in assocs;
      if found == [] {
        AccumulateKeepsSeed(ts, rest, key, link, f);
      } else {
        assert found == [found[0]];
        var ext := FieldItems(found[0], LinkField).value;
        assert found[0] in found;
        assert f !in ext;
        assert Accumulate(ts, assocs, key, link) == Accumulate(ts, rest, key, link + ext);
        AccumulateKeepsSeed(ts, rest, key, link + ext, f);
      }
    }
  }

  /** When no upstream subject holds a record with the key, the link stays as it was seeded. */
  lemma {:induction false} AccumulateUnmatched(ts: Tables, assocs: seq<string>, key: Value, link: map<string, Value>)
    requires forall s | s in assocs :: Upstream(ts, s, key) == []
    ensures Accumulate(ts, assocs, key, link) == Success(link)
    decreases |assocs|
  {
    if assocs != [] {
      assert forall s | s in assocs[1..] :: s in assocs;
      assert assocs[0] in assocs;
      AccumulateUnmatched(ts, assocs[1..], key, link);
    }
  }

  /** `create`: accumulate the upstream links into a fresh one, store them under `link`, then upsert by key. */
  function CreateSpec(ts: Tables, a: Assoc, newRecord: Doc, token: string, now: nat): Result<(Doc, Tables)>
  {
    if Topical.KeyField !in newRecord then Failure(MissingField(Topical.KeyField))
    else
      match Accumulate(ts, a.associations, newRecord[Topical.KeyField], map[a.topic.identifier := Str(token)])
      case Failure(e) => Failure(e)
      case Success(link) => Topical.CreateSpec(ts, a.topic, newRecord[LinkField := Obj(link)], now)
  }

  /**
   * A create whose upstream links are unambiguous stores, under the record's
   * key, a record holding its fields, the fresh identifier, and every field of
   * every upstream link; when the identifier is not a key field, the link is
   * not contained in the key.
   */
  lemma CreateStoresLink(ts: Tables, a: Assoc, newRecord: Doc, token: string, now: nat)
    requires Topical.KeyField in newRecord
    requires forall s | s in a.associations :: |Upstream(ts, s, newRecord[Topical.KeyField])| <= 1
    requires UpstreamLinked(ts, a.associations, newRecord[Topical.KeyField])
    ensures CreateSpec(ts, a, newRecord, token, now).Success?
    ensures var (d, after) := CreateSpec(ts, a, newRecord, token, now).value;
      var key := newRecord[Topical.KeyField];
      && Get(TableOf(after, a.topic.subject), FieldIs(Topical.KeyField, key)) == Some(d)
      && (forall f | f in newRecord && f != LinkField && f != Records.CreatedAt :: f in d && d[f] == newRecord[f])
      && LinkField in d && d[LinkField].Obj?
      && a.topic.identifier in d[LinkField].fields
      && (UpstreamSilentOn(ts, a.associations, key, a.topic.identifier) ==>
            d[LinkField].fields[a.topic.identifier] == Str(token))
      && (forall s: string, u: Doc | s in a.associations && u in Upstream(ts, s, key) ::
            u[LinkField].fields.Keys <= d[LinkField].fields.Keys)
      && (key.Obj? && a.topic.identifier !in key.fields ==> !SubMap(d[LinkField].fields, key.fields))
  {
    var key := newRecord[Topical.KeyField];
    var seed := map[a.topic.identifier := Str(token)];
    AccumulateSucceeds(ts, a.associations, key, seed);
    AccumulateGrows(ts, a.associations, key, seed);
    var link := Accumulate(ts, a.associations, key, seed).value;
    forall s: string, u: Doc | s in a.associations && u in Upstream(ts, s, key)
      ensures LinkField in u && u[LinkField].Obj? && u[LinkField].fields.Keys <= link.Keys
    {
      AccumulateCollectsFrom(ts, a.associations, key, seed, s, u);
    }
    if UpstreamSilentOn(ts, a.associations, key, a.topic.identifier) {
      AccumulateKeepsSeed(ts, a.associations, key, seed, a.topic.identifier);
    }
    var rec := newRecord[LinkField := Obj(link)];
    Records.CreateUpserts(ts, a.topic.subject, Topical.KeyField, rec, now);
  }

  /**
   * With no upstream subjects the stored link is exactly the record's own
   * identifier mapped to the fresh token.
   */
  lemma CreateWithoutAssociations(ts: Tables, a: Assoc, newRecord: Doc, token: string, now: nat)
    requires a.associations == [] && Topical.KeyField in newRecord
    ensures CreateSpec(ts, a, newRecord, token, now).Success?
    ensures var d := CreateSpec(ts, a, newRecord, token, now).value.0;
      LinkField in d && d[LinkField] == Obj(map[a.topic.identifier := Str(token)])
  {
    var rec := newRecord[LinkField := Obj(map[a.topic.identifier := Str(token)])];
    Records.CreateUpserts(ts, a.topic.subject, Topical.KeyField, rec, now);
  }

  /**
   * Creating an entity's record with unambiguous upstream links stores its
   * generated key and accumulated link; when the key was new, taking `key`,
   * `link` and `created_at` off the stored record gives back the details.
   */
  lemma CreateReturnsDetails(ts: Tables, a: Assoc, key: Value, details: Doc, token: string, now: nat)
    requires Topical.KeyField !in details && LinkField !in details && Records.CreatedAt !in details
    requires forall s | s in a.associations :: |Upstream(ts, s, key)| <= 1
    requires UpstreamLinked(ts, a.associations, key)
    ensures CreateSpec(ts, a, Topical.NewRecord(key, details), token, now).Success?
    ensures var (d, after) := CreateSpec(ts, a, Topical.NewRecord(key, details), token, now).value;
      && Topical.KeyField in d && d[Topical.KeyField] == key
      && LinkField in d && d[LinkField] == Obj(Accumulate(ts, a.associations, key, map[a.topic.identifier := Str(token)]).value)
      && Get(TableOf(after, a.topic.subject), FieldIs(Topical.KeyField, key)) == Some(d)
      && (!Contains(TableOf(ts, a.topic.subject), FieldIs(Topical.KeyField, key)) ==>
            d - {Topical.KeyField, LinkField, Records.CreatedAt} == details)
  {
    var seed := map[a.topic.identifier := Str(token)];
    AccumulateSucceeds(ts, a.associations, key, seed);
    var link := Accumulate(ts, a.associations, key, seed).value;
    var rec := Topical.NewRecord(key, details)[LinkField := Obj(link)];
    Records.CreateUpserts(ts, a.topic.subject, Topical.KeyField, rec, now);
    if !Contains(TableOf(ts, a.topic.subject), FieldIs(Topical.KeyField, key)) {
      Records.CreateInsertsFresh(ts, a.topic.subject, Topical.KeyField, rec, now);
      var d := Records.Stamp(rec, now);
      assert d - {Topical.KeyField, LinkField, Records.CreatedAt} == details;
    }
  }

  /**
   * In a table whose keys are unique, the record just created is afterwards
   * the one and only upstream match for its key, and keys stay unique.
   */
  lemma UpstreamAfterCreate(ts: Tables, a: Assoc, newRecord: Doc, token: string, now: nat)
    requires Records.UniqueBy(TableOf(ts, a.topic.subject), Topical.KeyField)
    requires CreateSpec(ts, a, newRecord, token, now).Success?
    ensures var (d, after) := CreateSpec(ts, a, newRecord, token, now).value;
      && Upstream(after, a.topic.subject, newRecord[Topical.KeyField]) == [d]
      && Records.UniqueBy(TableOf(after, a.topic.subject), Topical.KeyField)
      && (forall n | n != a.topic.subject :: TableOf(after, n) == TableOf(ts, n))
  {
    var seed := map[a.topic.identifier := Str(token)];
    var link := Accumulate(ts, a.associations, newRecord[Topical.KeyField], seed).value;
    var rec := newRecord[LinkField := Obj(link)];
    Records.CreateUpserts(ts, a.topic.subject, Topical.KeyField, rec, now);
    Records.CreateKeepsKeysUnique(ts, a.topic.subject, Topical.KeyField, rec, now);
    var after := CreateSpec(ts, a, newRecord, token, now).value.1;
    Records.UniqueSearchIsGet(TableOf(after, a.topic.subject), Topical.KeyField, newRecord[Topical.KeyField]);
  }

  /** `update`: refused when the updates touch `link` (checked first) or `key`. */
  function UpdateSpec(ts: Tables, a: Assoc, rid: Value, updates: Doc): Result<(Option<Doc>, Tables)>
  {
    if LinkField in updates then Failure(ImmutableField(LinkField))
    else Topical.UpdateSpec(ts, a.topic, rid, updates)
  }

  /** An update touching either identity field fails and writes nothing, reporting `link` before `key`. */
  lemma UpdateGuardsLink(ts: Tables, a: Assoc, rid: Value, updates: Doc)
    ensures var s := UpdateSpec(ts, a, rid, updates);
      && (s.Failure? <==> LinkField in updates || Topical.KeyField in updates)
      && (s.Failure? ==> After(s, ts) == ts)
      && (LinkField in updates ==> s == Failure(ImmutableField(LinkField)))
      && (LinkField !in updates && Topical.KeyField in updates ==> s == Failure(ImmutableField(Topical.KeyField)))
  {
    Topical.UpdateGuardsKey(ts, a.topic, rid, updates);
  }

  /** `delete`: find the record by key, then delete by its link, cascading through the link's identifier. */
  function DeleteSpec(ts: Tables, a: Assoc, rid: Value): Result<(Topical.Expanded, Tables)>
  {
    match Get(TableOf(ts, a.topic.subject), FieldIs(Topical.KeyField, rid))
    case None => Failure(MissingRecord)
    case Some(main) =>
      if LinkField !in main then Failure(MissingField(LinkField))
      else Topical.DeleteSpec(ts, a.topic, main[LinkField], LinkField)
  }

  /**
   * In a table whose keys are unique, once a delete succeeds no record with
   * the deleted key is left, so reading it finds nothing.
   */
  lemma DeleteThenRead(ts: Tables, a: Assoc, rid: Value)
    requires Records.UniqueBy(TableOf(ts, a.topic.subject), Topical.KeyField)
    requires DeleteSpec(ts, a, rid).Success?
    ensures !Contains(TableOf(DeleteSpec(ts, a, rid).value.1, a.topic.subject), FieldIs(Topical.KeyField, rid))
    ensures Topical.ReadSpec(DeleteSpec(ts, a, rid).value.1, a.topic, rid, LinkField) == Success(None)
  {
    var t := TableOf(ts, a.topic.subject);
    var main := Get(t, FieldIs(Topical.KeyField, rid)).value;
    var l := main[LinkField];
    var after := DeleteSpec(ts, a, rid).value.1;
    var cascaded := if a.topic.relations == [] then ts else Topical.Cascade(ts, a.topic.relations, Topical.RelatedQuery(a.topic, l, LinkField));
    if a.topic.relations != [] {
      Topical.CascadeClosedForm(ts, a.topic.relations, Topical.RelatedQuery(a.topic, l, LinkField));
    }
    assert forall d | d in TableOf(cascaded, a.topic.subject) :: d in t;
    var left := TableOf(after, a.topic.subject);
    assert left == Remove(TableOf(cascaded, a.topic.subject), FieldIs(LinkField, l));
    forall i | 0 <= i < |left| ensures !Holds(FieldIs(Topical.KeyField, rid), left[i]) {
      var d := left[i];
      assert d in left;
      if Topical.KeyField in d && d[Topical.KeyField] == rid {
        Records.UniqueKeyIdentifies(t, Topical.KeyField, d, main);
      }
    }
  }

  /**
   * A successful delete removes from the record's own table exactly the
   * records sharing its link, keeping every other record in place, and leaves
   * every table outside its relations unchanged.
   */
  lemma DeleteKeepsOthers(ts: Tables, a: Assoc, rid: Value)
    requires DeleteSpec(ts, a, rid).Success?
    ensures var main := Get(TableOf(ts, a.topic.subject), FieldIs(Topical.KeyField, rid)).value;
      var after := DeleteSpec(ts, a, rid).value.1;
      && LinkField in main
      && (a.topic.subject !in a.topic.relations ==>
            TableOf(after, a.topic.subject) == Remove(TableOf(ts, a.topic.subject), FieldIs(LinkField, main[LinkField])))
      && (forall n | n !in a.topic.relations && n != a.topic.subject :: TableOf(after, n) == TableOf(ts, n))
  {
    var main := Get(TableOf(ts, a.topic.subject), FieldIs(Topical.KeyField, rid)).value;
    Topical.DeleteRemovesRecord(ts, a.topic, main[LinkField], LinkField);
  }

  /**
   * Deleting the one record under `rid` also clears a downstream subject:
   * when that subject's one record under `k` inherited the deleted record's
   * identifier in its link, no record under `k` is left there and reading `k`
   * finds nothing.
   */
  lemma DeleteClearsSoleDownstream(ts: Tables, a: Assoc, rid: Value, main: Doc, child: Topical.Topic, k: Value, c: Doc)
    requires Upstream(ts, a.topic.subject, rid) == [main]
    requires LinkField in main && main[LinkField].Obj? && a.topic.identifier in main[LinkField].fields
    requires child.subject in a.topic.relations && child.subject != a.topic.subject
    requires Upstream(ts, child.subject, k) == [c]
    requires LinkField in c && c[LinkField].Obj? && a.topic.identifier in c[LinkField].fields
    requires c[LinkField].fields[a.topic.identifier] == main[LinkField].fields[a.topic.identifier]
    ensures DeleteSpec(ts, a, rid).Success?
    ensures !Contains(TableOf(DeleteSpec(ts, a, rid).value.1, child.subject), FieldIs(Topical.KeyField, k))
    ensures Topical.ReadSpec(DeleteSpec(ts, a, rid).value.1, child, k, LinkField) == Success(None)
  {
    var t := TableOf(ts, a.topic.subject);
    var g := Get(t, FieldIs(Topical.KeyField, rid));
    assert main in Upstream(ts, a.topic.subject, rid);
    assert g.Some? && g.value in Upstream(ts, a.topic.subject, rid);
    var l := main[LinkField];
    assert Holds(FieldIs(LinkField, l), main);
    Topical.DeleteSucceedsIff(ts, a.topic, l, LinkField);
    Topical.DeleteCascadesExactly(ts, a.topic, l, LinkField);
    var q := Topical.RelatedQuery(a.topic, l, LinkField);
    assert Holds(q, c);
    var left := TableOf(DeleteSpec(ts, a, rid).value.1, child.subject);
    assert left == Remove(TableOf(ts, child.subject), q);
    forall i | 0 <= i < |left| ensures !Holds(FieldIs(Topical.KeyField, k), left[i]) {
      var d := left[i];
      assert d in left;
    }
  }

  /** `create`, the link accumulated by a loop over the upstream subjects. */
  method Create(db: Database, a: Assoc, newRecord: Doc, token: string, now: nat) returns (r: Result<Doc>)
    modifies db
    ensures var s := CreateSpec(old(db.tables), a, newRecord, token, now);
      r == Answer(s) && db.tables == After(s, old(db.tables))
  {
    if Topical.KeyField !in newRecord {
      return Failure(MissingField(Topical.KeyField));
    }
    var key := newRecord[Topical.KeyField];
    var link := map[a.topic.identifier := Str(token)];
    var i := 0;
    while i < |a.associations|
      invariant 0 <= i <= |a.associations|
      invariant Accumulate(db.tables, a.associations, key, map[a.topic.identifier := Str(token)])
             == Accumulate(db.tables, a.associations[i..], key, link)
    {
      var subject := a.associations[i];
      var found := Search(TableOf(db.tables, subject), FieldIs(Topical.KeyField, key));
      if |found| > 1 {
        return Failure(AmbiguousAssociation(subject));
      }
      if |found| == 1 {
        var ext := FieldItems(found[0], LinkField);
        if ext.None? {
          return Failure(MissingField(LinkField));
        }
        link := link + ext.value;
      }
      assert a.associations[i..][1..] == a.associations[i + 1..];
      i := i + 1;
    }
    r := Topical.Create(db, a.topic, newRecord[LinkField := Obj(link)], now);
  }

  /** `read_all`: filtered and expanded through `link`. */
  method ReadAll(db: Database, a: Assoc, filter: map<string, Value>) returns (r: Result<seq<Topical.Expanded>>)
    ensures r == Topical.Select(db.tables, a.topic, TableOf(db.tables, a.topic.subject), LinkField, filter)
  {
    r := Topical.ReadAll(db, a.topic, LinkField, filter);
  }

  /** `read`: by key, expanded through `link`. */
  method Read(db: Database, a: Assoc, rid: Value) returns (r: Result<Option<Topical.Expanded>>)
    ensures r == Topical.ReadSpec(db.tables, a.topic, rid, LinkField)
  {
    r := Topical.Read(db, a.topic, rid, LinkField);
  }

  /** `update`. */
  method Update(db: Database, a: Assoc, rid: Value, updates: Doc) returns (r: Result<Option<Doc>>)
    modifies db
    ensures var s := UpdateSpec(old(db.tables), a, rid, updates);
      r == Answer(s) && db.tables == After(s, old(db.tables))
  {
    if LinkField in updates {
      return Failure(ImmutableField(LinkField));
    }
    r := Topical.Update(db, a.topic, rid, updates);
  }

  /** `delete`. */
  method Delete(db: Database, a: Assoc, rid: Value) returns (r: Result<Topical.Expanded>)
    modifies db
    ensures var s := DeleteSpec(old(db.tables), a, rid);
      r == Answer(s) && db.tables == After(s, old(db.tables))
  {
    var main := Records.Read(db, a.topic.subject, Topical.KeyField, rid);
    if main.None? {
      return Failure(MissingRecord);
    }
    if LinkField !in main.value {
      return Failure(MissingField(LinkField));
    }
    r := Topical.Delete(db, a.topic, main.value[LinkField], LinkField);
  }
}
