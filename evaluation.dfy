/**
 * The evaluation entities: MLFlow name mappings (plain relational records
 * with no relations), and validations and predictions (associative records
 * keyed by participant, collaboration, project, experiment and run).
 *
 * Validations and predictions look their upstream records up by WHOLE key
 * equality, and their five-field key has a `collab_id` that no model,
 * registration or tag key has.  Every relational and associative create,
 * update and delete keeps the model, registration and tag tables free of
 * such keys; so while the store is written only through these operations
 * their associations never match, and their link is their own identifier
 * alone.  In turn no model id reaches their links, so deleting a
 * model does not cascade into them.
 */
module Evaluation {
  import opened Store
  import Records
  import Topical
  import Association
  import Connection
  import Training

  const MLFTopic: Topical.Topic := Topical.Topic("MLFlow", "name", [])
  const ValidationAssoc: Association.Assoc :=
    Association.Assoc(Topical.Topic("Validation", "val_id", []), ["Model"])
  const PredictionAssoc: Association.Assoc :=
    Association.Assoc(Topical.Topic("Prediction", "pred_id", []), ["Model", "Registration", "Tag"])

  // Composite keys

  function MLFKey(project: Value, name: Value): (k: Value)
    ensures k.Obj? && k.fields.Keys == {"project", "name"}
    ensures k.fields["project"] == project && k.fields["name"] == name
  {
    Obj(map["project" := project, "name" := name])
  }

  /** The key of a validation or a prediction: who, in which collaboration, for which run. */
  function EvaluationKey(participantId: Value, collabId: Value, projectId: Value, exptId: Value, runId: Value): (k: Value)
    ensures k.Obj? && k.fields.Keys == {"participant_id", "collab_id", "project_id", "expt_id", "run_id"}
    ensures && k.fields["participant_id"] == participantId && k.fields["collab_id"] == collabId
            && k.fields["project_id"] == projectId && k.fields["expt_id"] == exptId && k.fields["run_id"] == runId
  {
    Obj(map["participant_id" := participantId, "collab_id" := collabId, "project_id" := projectId,
            "expt_id" := exptId, "run_id" := runId])
  }

  // MLFlow mappings

  method CreateMLF(db: Database, project: Value, name: Value, details: Doc, now: nat) returns (r: Result<Doc>)
    modifies db
    ensures var s := Topical.CreateSpec(old(db.tables), MLFTopic, Topical.NewRecord(MLFKey(project, name), details), now);
      r == Answer(s) && db.tables == After(s, old(db.tables))
  {
    r := Topical.Create(db, MLFTopic, Topical.NewRecord(MLFKey(project, name), details), now);
  }

  /** A mapping reads back by its key with an empty relation map. */
  method ReadMLF(db: Database, project: Value, name: Value) returns (r: Result<Option<Topical.Expanded>>)
    ensures r == Topical.ReadSpec(db.tables, MLFTopic, MLFKey(project, name), Topical.KeyField)
    ensures r.Success? && r.value.Some? ==>
      && r.value.value.record[Topical.KeyField] == MLFKey(project, name)
      && r.value.value.relations == map[]
  {
    r := Topical.Read(db, MLFTopic, MLFKey(project, name), Topical.KeyField);
    Topical.ReadFindsByKey(db.tables, MLFTopic, MLFKey(project, name), Topical.KeyField);
  }

  method UpdateMLF(db: Database, project: Value, name: Value, updates: Doc) returns (r: Result<Option<Doc>>)
    modifies db
    ensures var s := Topical.UpdateSpec(old(db.tables), MLFTopic, MLFKey(project, name), updates);
      r == Answer(s) && db.tables == After(s, old(db.tables))
  {
    r := Topical.Update(db, MLFTopic, MLFKey(project, name), updates);
  }

  method DeleteMLF(db: Database, project: Value, name: Value) returns (r: Result<Topical.Expanded>)
    modifies db
    ensures var s := Topical.DeleteSpec(old(db.tables), MLFTopic, MLFKey(project, name), Topical.KeyField);
      r == Answer(s) && db.tables == After(s, old(db.tables))
  {
    r := Topical.Delete(db, MLFTopic, MLFKey(project, name), Topical.KeyField);
  }

  /**
   * With no relations, deleting a mapping succeeds exactly when it exists,
   * returns it with an empty relation map, removes it from its own table and
   * changes no other table.
   */
  lemma DeleteMLFRemovesOnlyIt(ts: Tables, project: Value, name: Value)
    ensures var s := Topical.DeleteSpec(ts, MLFTopic, MLFKey(project, name), Topical.KeyField);
      s.Success? <==> Contains(TableOf(ts, "MLFlow"), FieldIs(Topical.KeyField, MLFKey(project, name)))
    ensures var s := Topical.DeleteSpec(ts, MLFTopic, MLFKey(project, name), Topical.KeyField);
      s.Success? ==>
        var (x, after) := s.value;
        && x.record == Get(TableOf(ts, "MLFlow"), FieldIs(Topical.KeyField, MLFKey(project, name))).value
        && x.relations == map[]
        && TableOf(after, "MLFlow") == Remove(TableOf(ts, "MLFlow"), FieldIs(Topical.KeyField, MLFKey(project, name)))
        && (forall n | n != "MLFlow" :: TableOf(after, n) == TableOf(ts, n))
  {
    Topical.DeleteSucceedsIff(ts, MLFTopic, MLFKey(project, name), Topical.KeyField);
  }

  // Validations

  method CreateValidation(db: Database, participantId: Value, collabId: Value, projectId: Value, exptId: Value, runId: Value,
                          details: Doc, token: string, now: nat)
    returns (r: Result<Doc>)
    modifies db
    ensures var s := Association.CreateSpec(old(db.tables), ValidationAssoc,
      Topical.NewRecord(EvaluationKey(participantId, collabId, projectId, exptId, runId), details), token, now);
      r == Answer(s) && db.tables == After(s, old(db.tables))
  {
    r := Association.Create(db, ValidationAssoc,
      Topical.NewRecord(EvaluationKey(participantId, collabId, projectId, exptId, runId), details), token, now);
  }

  method ReadValidation(db: Database, participantId: Value, collabId: Value, projectId: Value, exptId: Value, runId: Value)
    returns (r: Result<Option<Topical.Expanded>>)
    ensures r == Topical.ReadSpec(db.tables, ValidationAssoc.topic, EvaluationKey(participantId, collabId, projectId, exptId, runId), Association.LinkField)
    ensures r.Success? && r.value.Some? ==>
      && r.value.value.record[Topical.KeyField] == EvaluationKey(participantId, collabId, projectId, exptId, runId)
      && r.value.value.relations == map[]
  {
    r := Association.Read(db, ValidationAssoc, EvaluationKey(participantId, collabId, projectId, exptId, runId));
    Topical.ReadFindsByKey(db.tables, ValidationAssoc.topic, EvaluationKey(participantId, collabId, projectId, exptId, runId), Association.LinkField);
  }

  method UpdateValidation(db: Database, participantId: Value, collabId: Value, projectId: Value, exptId: Value, runId: Value,
                          updates: Doc)
    returns (r: Result<Option<Doc>>)
    modifies db
    ensures var s := Association.UpdateSpec(old(db.tables), ValidationAssoc,
      EvaluationKey(participantId, collabId, projectId, exptId, runId), updates);
      r == Answer(s) && db.tables == After(s, old(db.tables))
  {
    r := Association.Update(db, ValidationAssoc, EvaluationKey(participantId, collabId, projectId, exptId, runId), updates);
  }

  method DeleteValidation(db: Database, participantId: Value, collabId: Value, projectId: Value, exptId: Value, runId: Value)
    returns (r: Result<Topical.Expanded>)
    modifies db
    ensures var s := Association.DeleteSpec(old(db.tables), ValidationAssoc,
      EvaluationKey(participantId, collabId, projectId, exptId, runId));
      r == Answer(s) && db.tables == After(s, old(db.tables))
  {
    r := Association.Delete(db, ValidationAssoc, EvaluationKey(participantId, collabId, projectId, exptId, runId));
  }

  // Predictions

  method CreatePrediction(db: Database, participantId: Value, collabId: Value, projectId: Value, exptId: Value, runId: Value,
                          details: Doc, token: string, now: nat)
    returns (r: Result<Doc>)
    modifies db
    ensures var s := Association.CreateSpec(old(db.tables), PredictionAssoc,
      Topical.NewRecord(EvaluationKey(participantId, collabId, projectId, exptId, runId), details), token, now);
      r == Answer(s) && db.tables == After(s, old(db.tables))
  {
    r := Association.Create(db, PredictionAssoc,
      Topical.NewRecord(EvaluationKey(participantId, collabId, projectId, exptId, runId), details), token, now);
  }

  method ReadPrediction(db: Database, participantId: Value, collabId: Value, projectId: Value, exptId: Value, runId: Value)
    returns (r: Result<Option<Topical.Expanded>>)
    ensures r == Topical.ReadSpec(db.tables, PredictionAssoc.topic, EvaluationKey(participantId, collabId, projectId, exptId, runId), Association.LinkField)
    ensures r.Success? && r.value.Some? ==>
      && r.value.value.record[Topical.KeyField] == EvaluationKey(participantId, collabId, projectId, exptId, runId)
      && r.value.value.relations == map[]
  {
    r := Association.Read(db, PredictionAssoc, EvaluationKey(participantId, collabId, projectId, exptId, runId));
    Topical.ReadFindsByKey(db.tables, PredictionAssoc.topic, EvaluationKey(participantId, collabId, projectId, exptId, runId), Association.LinkField);
  }

  method UpdatePrediction(db: Database, participantId: Value, collabId: Value, projectId: Value, exptId: Value, runId: Value,
                          updates: Doc)
    returns (r: Result<Option<Doc>>)
    modifies db
    ensures var s := Association.UpdateSpec(old(db.tables), PredictionAssoc,
      EvaluationKey(participantId, collabId, projectId, exptId, runId), updates);
      r == Answer(s) && db.tables == After(s, old(db.tables))
  {
    r := Association.Update(db, PredictionAssoc, EvaluationKey(participantId, collabId, projectId, exptId, runId), updates);
  }

  method DeletePrediction(db: Database, participantId: Value, collabId: Value, projectId: Value, exptId: Value, runId: Value)
    returns (r: Result<Topical.Expanded>)
    modifies db
    ensures var s := Association.DeleteSpec(old(db.tables), PredictionAssoc,
      EvaluationKey(participantId, collabId, projectId, exptId, runId));
      r == Answer(s) && db.tables == After(s, old(db.tables))
  {
    r := Association.Delete(db, PredictionAssoc, EvaluationKey(participantId, collabId, projectId, exptId, runId));
  }

  // Inert associations

  /** No record of table `s` has a key naming a `collab_id`. */
  predicate NoCollabKeys(ts: Tables, s: string)
  {
    forall d: Doc | d in TableOf(ts, s) :: !(Topical.KeyField in d && d[Topical.KeyField].Obj? && "collab_id" in d[Topical.KeyField].fields)
  }

  /**
   * `NoCollabKeys` is an invariant of the entity operations.  A relational
   * create keeps it for table `n` when it writes another table, or when its
   * key names no `collab_id` (every project, participant, experiment, run and
   * MLFlow key, by their key builders' contracts).
   */
  lemma TopicalCreateKeepsNoCollab(ts: Tables, t: Topical.Topic, key: Value, details: Doc, now: nat, n: string)
    requires n != t.subject || (key.Obj? && "collab_id" !in key.fields && Topical.KeyField !in details)
    requires NoCollabKeys(ts, n)
    requires Topical.CreateSpec(ts, t, Topical.NewRecord(key, details), now).Success?
    ensures NoCollabKeys(Topical.CreateSpec(ts, t, Topical.NewRecord(key, details), now).value.1, n)
  {
    var stamped := Records.Stamp(Topical.NewRecord(key, details), now);
    Records.CreateUpserts(ts, t.subject, Topical.KeyField, Topical.NewRecord(key, details), now);
    if n == t.subject {
      assert stamped[Topical.KeyField] == key;
      Records.UpsertKeysFrom(TableOf(ts, t.subject), Topical.KeyField, stamped);
    }
  }

  /**
   * An associative create keeps `NoCollabKeys` for table `n` when it writes
   * another table (as every validation and prediction create does for the
   * model, registration and tag tables), or when its key names no
   * `collab_id` (every model, registration, tag and alignment key).
   */
  lemma CreateKeepsNoCollab(ts: Tables, a: Association.Assoc, key: Value, details: Doc, token: string, now: nat, n: string)
    requires n != a.topic.subject || (key.Obj? && "collab_id" !in key.fields && Topical.KeyField !in details)
    requires NoCollabKeys(ts, n)
    requires Association.CreateSpec(ts, a, Topical.NewRecord(key, details), token, now).Success?
    ensures NoCollabKeys(Association.CreateSpec(ts, a, Topical.NewRecord(key, details), token, now).value.1, n)
  {
    var newRecord := Topical.NewRecord(key, details);
    var link := Association.Accumulate(ts, a.associations, newRecord[Topical.KeyField], map[a.topic.identifier := Str(token)]).value;
    var stamped := Records.Stamp(newRecord[Association.LinkField := Obj(link)], now);
    Records.CreateUpserts(ts, a.topic.subject, Topical.KeyField, newRecord[Association.LinkField := Obj(link)], now);
    if n == a.topic.subject {
      assert stamped[Topical.KeyField] == key;
      Records.UpsertKeysFrom(TableOf(ts, a.topic.subject), Topical.KeyField, stamped);
    }
  }

  /** A relational update, which never rewrites a key, keeps `NoCollabKeys` for every table. */
  lemma TopicalUpdateKeepsNoCollab(ts: Tables, t: Topical.Topic, rid: Value, updates: Doc, n: string)
    requires NoCollabKeys(ts, n)
    requires Topical.UpdateSpec(ts, t, rid, updates).Success?
    ensures NoCollabKeys(Topical.UpdateSpec(ts, t, rid, updates).value.1, n)
  {
    var before := TableOf(ts, t.subject);
    var r := Apply(before, FieldIs(Topical.KeyField, rid), updates);
    if n == t.subject {
      Records.ApplyKeepsKey(before, FieldIs(Topical.KeyField, rid), updates, Topical.KeyField);
      forall d: Doc | d in r ensures !(Topical.KeyField in d && d[Topical.KeyField].Obj? && "collab_id" in d[Topical.KeyField].fields) {
        var i :| 0 <= i < |r| && r[i] == d;
        assert before[i] in before;
      }
    }
  }

  /** An associative update is a guarded relational update, so it keeps `NoCollabKeys` too. */
  lemma UpdateKeepsNoCollab(ts: Tables, a: Association.Assoc, rid: Value, updates: Doc, n: string)
    requires NoCollabKeys(ts, n)
    requires Association.UpdateSpec(ts, a, rid, updates).Success?
    ensures NoCollabKeys(Association.UpdateSpec(ts, a, rid, updates).value.1, n)
  {
    TopicalUpdateKeepsNoCollab(ts, a.topic, rid, updates, n);
  }

  /**
   * A cascading delete, which only takes records away, keeps `NoCollabKeys`
   * for every table, whatever subjects it cascades into.
   */
  lemma TopicalDeleteKeepsNoCollab(ts: Tables, t: Topical.Topic, rid: Value, key: string, n: string)
    requires NoCollabKeys(ts, n)
    requires Topical.DeleteSpec(ts, t, rid, key).Success?
    ensures NoCollabKeys(Topical.DeleteSpec(ts, t, rid, key).value.1, n)
  {
    Topical.DeleteOnlyRemoves(ts, t, rid, key);
  }

  /** An associative delete is a cascading delete by link, so it keeps `NoCollabKeys` too. */
  lemma DeleteKeepsNoCollab(ts: Tables, a: Association.Assoc, rid: Value, n: string)
    requires NoCollabKeys(ts, n)
    requires Association.DeleteSpec(ts, a, rid).Success?
    ensures NoCollabKeys(Association.DeleteSpec(ts, a, rid).value.1, n)
  {
    var main := Get(TableOf(ts, a.topic.subject), FieldIs(Topical.KeyField, rid)).value;
    TopicalDeleteKeepsNoCollab(ts, a.topic, main[Association.LinkField], Association.LinkField, n);
  }

  /**
   * When no upstream table holds a key naming `collab_id`, a validation or
   * prediction finds no upstream record, so its create succeeds and its link
   * is its own identifier alone.
   */
  lemma EvaluationLinkIsOwn(ts: Tables, a: Association.Assoc, key: Value, details: Doc, token: string, now: nat)
    requires key.Obj? && "collab_id" in key.fields && Topical.KeyField !in details
    requires forall s | s in a.associations :: NoCollabKeys(ts, s)
    ensures forall s | s in a.associations :: Association.Upstream(ts, s, key) == []
    ensures Association.CreateSpec(ts, a, Topical.NewRecord(key, details), token, now).Success?
    ensures var d := Association.CreateSpec(ts, a, Topical.NewRecord(key, details), token, now).value.0;
      Association.LinkField in d && d[Association.LinkField] == Obj(map[a.topic.identifier := Str(token)])
  {
    forall s | s in a.associations ensures Association.Upstream(ts, s, key) == [] {
      NoMatch(TableOf(ts, s), FieldIs(Topical.KeyField, key));
    }
    var seed := map[a.topic.identifier := Str(token)];
    Association.AccumulateUnmatched(ts, a.associations, key, seed);
    var newRecord := Topical.NewRecord(key, details);
    Records.CreateUpserts(ts, a.topic.subject, Topical.KeyField, newRecord[Association.LinkField := Obj(seed)], now);
  }

  /**
   * A validation created under a fresh key, with no model key naming a
   * `collab_id`, has the link `{val_id: token}`; taking `key`, `link` and
   * `created_at` off it gives back the details; and reading its key returns
   * exactly it, with no relations.
   */
  lemma ValidationRoundTrip(ts: Tables, participantId: Value, collabId: Value, projectId: Value, exptId: Value, runId: Value,
                            details: Doc, token: string, now: nat)
    requires Topical.KeyField !in details && Association.LinkField !in details && Records.CreatedAt !in details
    requires NoCollabKeys(ts, "Model")
    requires !Contains(TableOf(ts, "Validation"), FieldIs(Topical.KeyField, EvaluationKey(participantId, collabId, projectId, exptId, runId)))
    ensures var key := EvaluationKey(participantId, collabId, projectId, exptId, runId);
      var s := Association.CreateSpec(ts, ValidationAssoc, Topical.NewRecord(key, details), token, now);
      && s.Success?
      && var (d, after) := s.value;
      && Association.LinkField in d && d[Association.LinkField] == Obj(map["val_id" := Str(token)])
      && d - {Topical.KeyField, Association.LinkField, Records.CreatedAt} == details
      && Topical.ReadSpec(after, ValidationAssoc.topic, key, Association.LinkField) == Success(Some(Topical.Expanded(d, map[])))
  {
    var key := EvaluationKey(participantId, collabId, projectId, exptId, runId);
    EvaluationLinkIsOwn(ts, ValidationAssoc, key, details, token, now);
    Association.CreateReturnsDetails(ts, ValidationAssoc, key, details, token, now);
    var after := Association.CreateSpec(ts, ValidationAssoc, Topical.NewRecord(key, details), token, now).value.1;
    Topical.ReadFindsByKey(after, ValidationAssoc.topic, key, Association.LinkField);
  }

  /**
   * A prediction created under a fresh key, with no model, registration or tag
   * key naming a `collab_id`, has the link `{pred_id: token}` and reads back
   * exactly; in a prediction table with unique keys, deleting it afterwards
   * leaves nothing to read under its key.
   */
  lemma PredictionRoundTrip(ts: Tables, participantId: Value, collabId: Value, projectId: Value, exptId: Value, runId: Value,
                            details: Doc, token: string, now: nat)
    requires Topical.KeyField !in details && Association.LinkField !in details && Records.CreatedAt !in details
    requires NoCollabKeys(ts, "Model") && NoCollabKeys(ts, "Registration") && NoCollabKeys(ts, "Tag")
    requires Records.UniqueBy(TableOf(ts, "Prediction"), Topical.KeyField)
    requires !Contains(TableOf(ts, "Prediction"), FieldIs(Topical.KeyField, EvaluationKey(participantId, collabId, projectId, exptId, runId)))
    ensures var key := EvaluationKey(participantId, collabId, projectId, exptId, runId);
      var s := Association.CreateSpec(ts, PredictionAssoc, Topical.NewRecord(key, details), token, now);
      && s.Success?
      && var (d, after) := s.value;
      && Association.LinkField in d && d[Association.LinkField] == Obj(map["pred_id" := Str(token)])
      && d - {Topical.KeyField, Association.LinkField, Records.CreatedAt} == details
      && Topical.ReadSpec(after, PredictionAssoc.topic, key, Association.LinkField) == Success(Some(Topical.Expanded(d, map[])))
      && Association.DeleteSpec(after, PredictionAssoc, key).Success?
      && Topical.ReadSpec(Association.DeleteSpec(after, PredictionAssoc, key).value.1, PredictionAssoc.topic, key, Association.LinkField) == Success(None)
  {
    var key := EvaluationKey(participantId, collabId, projectId, exptId, runId);
    assert forall s | s in PredictionAssoc.associations :: NoCollabKeys(ts, s);
    EvaluationLinkIsOwn(ts, PredictionAssoc, key, details, token, now);
    Association.CreateReturnsDetails(ts, PredictionAssoc, key, details, token, now);
    var (d, after) := Association.CreateSpec(ts, PredictionAssoc, Topical.NewRecord(key, details), token, now).value;
    Topical.ReadFindsByKey(after, PredictionAssoc.topic, key, Association.LinkField);
    var rec := Topical.NewRecord(key, details)[Association.LinkField := Obj(map["pred_id" := Str(token)])];
    Records.CreateKeepsKeysUnique(ts, "Prediction", Topical.KeyField, rec, now);
    Topical.DeleteSucceedsIff(after, PredictionAssoc.topic, d[Association.LinkField], Association.LinkField);
    Association.DeleteThenRead(after, PredictionAssoc, key);
  }

  /** No record of table `s` has a link naming a `model_id`. */
  predicate NoModelLinks(ts: Tables, s: string)
  {
    forall d: Doc | d in TableOf(ts, s) :: !(Association.LinkField in d && d[Association.LinkField].Obj? && "model_id" in d[Association.LinkField].fields)
  }

  /**
   * A model's relations are Validation and Prediction, matched by `model_id`
   * within their links; while no validation or prediction link names a model
   * id (as their own links never do), deleting a model leaves both tables
   * exactly as they were.
   */
  lemma DeleteModelKeepsEvaluations(ts: Tables, projectId: Value, exptId: Value, runId: Value)
    requires Association.DeleteSpec(ts, Training.ModelAssoc, Training.ModelKey(projectId, exptId, runId)).Success?
    requires NoModelLinks(ts, "Validation") && NoModelLinks(ts, "Prediction")
    ensures var after := Association.DeleteSpec(ts, Training.ModelAssoc, Training.ModelKey(projectId, exptId, runId)).value.1;
      TableOf(after, "Validation") == TableOf(ts, "Validation") && TableOf(after, "Prediction") == TableOf(ts, "Prediction")
  {
    var t := Training.ModelAssoc.topic;
    var main := Get(TableOf(ts, t.subject), FieldIs(Topical.KeyField, Training.ModelKey(projectId, exptId, runId))).value;
    DeleteKeepsUnlinked(ts, t, main[Association.LinkField], "Validation");
    DeleteKeepsUnlinked(ts, t, main[Association.LinkField], "Prediction");
  }

  /** A cascading delete by link leaves a related table whose links never name the identifier as it was. */
  lemma DeleteKeepsUnlinked(ts: Tables, t: Topical.Topic, l: Value, n: string)
    requires Topical.DeleteSpec(ts, t, l, Association.LinkField).Success?
    requires n in t.relations && n != t.subject
    requires forall d: Doc | d in TableOf(ts, n) :: !(Association.LinkField in d && d[Association.LinkField].Obj? && t.identifier in d[Association.LinkField].fields)
    ensures TableOf(Topical.DeleteSpec(ts, t, l, Association.LinkField).value.1, n) == TableOf(ts, n)
  {
    Topical.DeleteCascadesExactly(ts, t, l, Association.LinkField);
    NoMatch(TableOf(ts, n), Topical.RelatedQuery(t, l, Association.LinkField));
  }
}
