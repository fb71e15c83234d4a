/**
 * The training entities: alignments (associated upstream with the
 * registration and the tag of the same project and participant, closing the
 * chain Registration => Tag => Alignment) and models (keyed like the run they
 * belong to, with validations and predictions downstream).
 */
module Training {
  import opened Store
  import Records
  import Topical
  import Association
  import Connection

  const AlignmentAssoc: Association.Assoc :=
    Association.Assoc(Topical.Topic("Alignment", "alignment_id", []), ["Registration", "Tag"])
  const ModelAssoc: Association.Assoc :=
    Association.Assoc(Topical.Topic("Model", "model_id", ["Validation", "Prediction"]), [])

  // Composite keys

  /** An alignment is keyed exactly like the registration and the tag it belongs with. */
  function AlignmentKey(projectId: Value, participantId: Value): (k: Value)
    ensures k.Obj? && k.fields.Keys == {"project_id", "participant_id"}
    ensures k.fields["project_id"] == projectId && k.fields["participant_id"] == participantId
    ensures k == Connection.PairKey(projectId, participantId)
  {
    Obj(map["project_id" := projectId, "participant_id" := participantId])
  }

  /** A model is keyed exactly like the run that produced it. */
  function ModelKey(projectId: Value, exptId: Value, runId: Value): (k: Value)
    ensures k.Obj? && k.fields.Keys == {"project_id", "expt_id", "run_id"}
    ensures k.fields["project_id"] == projectId && k.fields["expt_id"] == exptId && k.fields["run_id"] == runId
    ensures k == Connection.RunKey(projectId, exptId, runId)
  {
    Obj(map["project_id" := projectId, "expt_id" := exptId, "run_id" := runId])
  }

  // Alignments

  method CreateAlignment(db: Database, projectId: Value, participantId: Value, details: Doc, token: string, now: nat)
    returns (r: Result<Doc>)
    modifies db
    ensures var s := Association.CreateSpec(old(db.tables), AlignmentAssoc, Topical.NewRecord(AlignmentKey(projectId, participantId), details), token, now);
      r == Answer(s) && db.tables == After(s, old(db.tables))
  {
    r := Association.Create(db, AlignmentAssoc, Topical.NewRecord(AlignmentKey(projectId, participantId), details), token, now);
  }

  /** An alignment reads back with no relations at all: nothing lies downstream of it. */
  method ReadAlignment(db: Database, projectId: Value, participantId: Value) returns (r: Result<Option<Topical.Expanded>>)
    ensures r == Topical.ReadSpec(db.tables, AlignmentAssoc.topic, AlignmentKey(projectId, participantId), Association.LinkField)
    ensures r.Success? && r.value.Some? ==>
      && r.value.value.record[Topical.KeyField] == AlignmentKey(projectId, participantId)
      && r.value.value.relations == map[]
  {
    r := Association.Read(db, AlignmentAssoc, AlignmentKey(projectId, participantId));
    Topical.ReadFindsByKey(db.tables, AlignmentAssoc.topic, AlignmentKey(projectId, participantId), Association.LinkField);
  }

  method UpdateAlignment(db: Database, projectId: Value, participantId: Value, updates: Doc) returns (r: Result<Option<Doc>>)
    modifies db
    ensures var s := Association.UpdateSpec(old(db.tables), AlignmentAssoc, AlignmentKey(projectId, participantId), updates);
      r == Answer(s) && db.tables == After(s, old(db.tables))
  {
    r := Association.Update(db, AlignmentAssoc, AlignmentKey(projectId, participantId), updates);
  }

  method DeleteAlignment(db: Database, projectId: Value, participantId: Value) returns (r: Result<Topical.Expanded>)
    modifies db
    ensures var s := Association.DeleteSpec(old(db.tables), AlignmentAssoc, AlignmentKey(projectId, participantId));
      r == Answer(s) && db.tables == After(s, old(db.tables))
  {
    r := Association.Delete(db, AlignmentAssoc, AlignmentKey(projectId, participantId));
  }

  /**
   * With exactly one registration and one tag under the alignment's key, each
   * carrying a link, the alignment's link is its own `alignment_id` merged with
   * the registration's link and then the tag's.
   */
  lemma AlignmentLinkMergesUpstream(ts: Tables, k: Value, token: string, reg: Doc, tag: Doc)
    requires Association.Upstream(ts, "Registration", k) == [reg] && Association.LinkField in reg && reg[Association.LinkField].Obj?
    requires Association.Upstream(ts, "Tag", k) == [tag] && Association.LinkField in tag && tag[Association.LinkField].Obj?
    ensures Association.Accumulate(ts, AlignmentAssoc.associations, k, map["alignment_id" := Str(token)])
      == Success(map["alignment_id" := Str(token)] + reg[Association.LinkField].fields + tag[Association.LinkField].fields)
  {
    var seed := map["alignment_id" := Str(token)];
    var assocs := AlignmentAssoc.associations;
    assert assocs[1..] == ["Tag"] && assocs[1..][1..] == [];
    assert Association.Accumulate(ts, ["Tag"], k, seed + reg[Association.LinkField].fields)
      == Success(seed + reg[Association.LinkField].fields + tag[Association.LinkField].fields);
  }

  /**
   * First link of the chain: a registration created in a store whose
   * registration keys are unique is afterwards the one registration under its
   * key, its link is its own identifier alone, keys stay unique, and no other
   * table changes.
   */
  lemma ChainRegistration(ts: Tables, k: Value, details: Doc, t1: string, now: nat)
    requires Topical.KeyField !in details
    requires Records.UniqueBy(TableOf(ts, "Registration"), Topical.KeyField)
    ensures Association.CreateSpec(ts, Connection.RegistrationAssoc, Topical.NewRecord(k, details), t1, now).Success?
    ensures var (reg, after) := Association.CreateSpec(ts, Connection.RegistrationAssoc, Topical.NewRecord(k, details), t1, now).value;
      && Association.Upstream(after, "Registration", k) == [reg]
      && Association.LinkField in reg && reg[Association.LinkField] == Obj(map["registration_id" := Str(t1)])
      && Records.UniqueBy(TableOf(after, "Registration"), Topical.KeyField)
      && (forall n | n != "Registration" :: TableOf(after, n) == TableOf(ts, n))
  {
    Association.CreateWithoutAssociations(ts, Connection.RegistrationAssoc, Topical.NewRecord(k, details), t1, now);
    Association.UpstreamAfterCreate(ts, Connection.RegistrationAssoc, Topical.NewRecord(k, details), t1, now);
  }

  /**
   * Second link of the chain: with exactly one registration under the key, a
   * tag created in a store whose tag keys are unique is afterwards the one tag
   * under that key, its link is its own identifier merged with the
   * registration's link, and the registrations are untouched.
   */
  lemma ChainTag(ts: Tables, k: Value, details: Doc, reg: Doc, t2: string, now: nat)
    requires Topical.KeyField !in details
    requires Association.Upstream(ts, "Registration", k) == [reg] && Association.LinkField in reg && reg[Association.LinkField].Obj?
    requires Records.UniqueBy(TableOf(ts, "Tag"), Topical.KeyField)
    ensures Association.CreateSpec(ts, Connection.TagAssoc, Topical.NewRecord(k, details), t2, now).Success?
    ensures var (tag, after) := Association.CreateSpec(ts, Connection.TagAssoc, Topical.NewRecord(k, details), t2, now).value;
      && Association.Upstream(after, "Tag", k) == [tag]
      && Association.LinkField in tag && tag[Association.LinkField] == Obj(map["tag_id" := Str(t2)] + reg[Association.LinkField].fields)
      && TableOf(after, "Registration") == TableOf(ts, "Registration")
  {
    var seed := map["tag_id" := Str(t2)];
    var link := seed + reg[Association.LinkField].fields;
    assert Connection.TagAssoc.associations[1..] == [];
    assert Association.Accumulate(ts, Connection.TagAssoc.associations, k, seed) == Success(link);
    Records.CreateUpserts(ts, "Tag", Topical.KeyField, Topical.NewRecord(k, details)[Association.LinkField := Obj(link)], now);
    Association.UpstreamAfterCreate(ts, Connection.TagAssoc, Topical.NewRecord(k, details), t2, now);
  }

  /**
   * Last link of the chain: with exactly one registration and one tag under
   * the key, each carrying a link, an alignment is created with its own
   * identifier merged with the registration's link and then the tag's.
   */
  lemma ChainAlignment(ts: Tables, k: Value, details: Doc, reg: Doc, tag: Doc, t3: string, now: nat)
    requires Topical.KeyField !in details
    requires Association.Upstream(ts, "Registration", k) == [reg] && Association.LinkField in reg && reg[Association.LinkField].Obj?
    requires Association.Upstream(ts, "Tag", k) == [tag] && Association.LinkField in tag && tag[Association.LinkField].Obj?
    ensures Association.CreateSpec(ts, AlignmentAssoc, Topical.NewRecord(k, details), t3, now).Success?
    ensures var d := Association.CreateSpec(ts, AlignmentAssoc, Topical.NewRecord(k, details), t3, now).value.0;
      Association.LinkField in d && d[Association.LinkField] == Obj(map["alignment_id" := Str(t3)] + reg[Association.LinkField].fields + tag[Association.LinkField].fields)
  {
    AlignmentLinkMergesUpstream(ts, k, t3, reg, tag);
    var link := map["alignment_id" := Str(t3)] + reg[Association.LinkField].fields + tag[Association.LinkField].fields;
    Records.CreateUpserts(ts, "Alignment", Topical.KeyField, Topical.NewRecord(k, details)[Association.LinkField := Obj(link)], now);
  }

  /** Merging the three links of the chain names each identifier once, with its own token. */
  lemma ChainLinkMerges(t1: string, t2: string, t3: string)
    ensures map["alignment_id" := Str(t3)] + map["registration_id" := Str(t1)] + (map["tag_id" := Str(t2)] + map["registration_id" := Str(t1)])
      == map["alignment_id" := Str(t3), "registration_id" := Str(t1), "tag_id" := Str(t2)]
  {
  }

  /**
   * The chain Registration => Tag => Alignment: in a store whose registration
   * and tag keys are unique, creating a registration, then a tag, then an
   * alignment for the same project and participant gives the alignment the
   * link that maps each of the three identifiers to its own fresh token.
   */
  lemma AlignmentChain(ts: Tables, projectId: Value, participantId: Value,
                       regDetails: Doc, tagDetails: Doc, alignDetails: Doc, t1: string, t2: string, t3: string, now: nat)
    requires Topical.KeyField !in regDetails && Topical.KeyField !in tagDetails && Topical.KeyField !in alignDetails
    requires Records.UniqueBy(TableOf(ts, "Registration"), Topical.KeyField)
    requires Records.UniqueBy(TableOf(ts, "Tag"), Topical.KeyField)
    ensures var k := Connection.PairKey(projectId, participantId);
      var s1 := Association.CreateSpec(ts, Connection.RegistrationAssoc, Topical.NewRecord(k, regDetails), t1, now);
      && s1.Success?
      && var s2 := Association.CreateSpec(s1.value.1, Connection.TagAssoc, Topical.NewRecord(k, tagDetails), t2, now);
      && s2.Success?
      && var s3 := Association.CreateSpec(s2.value.1, AlignmentAssoc, Topical.NewRecord(AlignmentKey(projectId, participantId), alignDetails), t3, now);
      && s3.Success?
      && Association.LinkField in s3.value.0
      && s3.value.0[Association.LinkField] == Obj(map["alignment_id" := Str(t3), "registration_id" := Str(t1), "tag_id" := Str(t2)])
  {
    var k := Connection.PairKey(projectId, participantId);
    ChainRegistration(ts, k, regDetails, t1, now);
    var (reg, ts1) := Association.CreateSpec(ts, Connection.RegistrationAssoc, Topical.NewRecord(k, regDetails), t1, now).value;
    ChainTag(ts1, k, tagDetails, reg, t2, now);
    var (tag, ts2) := Association.CreateSpec(ts1, Connection.TagAssoc, Topical.NewRecord(k, tagDetails), t2, now).value;
    assert Association.Upstream(ts2, "Registration", k) == Association.Upstream(ts1, "Registration", k);
    ChainAlignment(ts2, k, alignDetails, reg, tag, t3, now);
    ChainLinkMerges(t1, t2, t3);
  }

  /**
   * Deleting the registration of the chain Registration => Tag => Alignment
   * clears the whole chain: in a store whose registration, tag and alignment
   * keys are unique, after creating a registration, then a tag, then an
   * alignment for one project and participant, deleting that registration
   * succeeds, and reading the registration, the tag and the alignment of the
   * pair then finds nothing.
   */
  lemma DeleteRegistrationClearsChain(ts: Tables, projectId: Value, participantId: Value,
                                      regDetails: Doc, tagDetails: Doc, alignDetails: Doc, t1: string, t2: string, t3: string, now: nat)
    requires Topical.KeyField !in regDetails && Topical.KeyField !in tagDetails && Topical.KeyField !in alignDetails
    requires Records.UniqueBy(TableOf(ts, "Registration"), Topical.KeyField)
    requires Records.UniqueBy(TableOf(ts, "Tag"), Topical.KeyField)
    requires Records.UniqueBy(TableOf(ts, "Alignment"), Topical.KeyField)
    ensures var k := Connection.PairKey(projectId, participantId);
      var s1 := Association.CreateSpec(ts, Connection.RegistrationAssoc, Topical.NewRecord(k, regDetails), t1, now);
      && s1.Success?
      && var s2 := Association.CreateSpec(s1.value.1, Connection.TagAssoc, Topical.NewRecord(k, tagDetails), t2, now);
      && s2.Success?
      && var s3 := Association.CreateSpec(s2.value.1, AlignmentAssoc, Topical.NewRecord(AlignmentKey(projectId, participantId), alignDetails), t3, now);
      && s3.Success?
      && var del := Association.DeleteSpec(s3.value.1, Connection.RegistrationAssoc, k);
      && del.Success?
      && Topical.ReadSpec(del.value.1, Connection.RegistrationAssoc.topic, k, Association.LinkField) == Success(None)
      && Topical.ReadSpec(del.value.1, Connection.TagAssoc.topic, k, Association.LinkField) == Success(None)
      && Topical.ReadSpec(del.value.1, AlignmentAssoc.topic, AlignmentKey(projectId, participantId), Association.LinkField) == Success(None)
  {
    var k := Connection.PairKey(projectId, participantId);
    ChainRegistration(ts, k, regDetails, t1, now);
    var (reg, ts1) := Association.CreateSpec(ts, Connection.RegistrationAssoc, Topical.NewRecord(k, regDetails), t1, now).value;
    ChainTag(ts1, k, tagDetails, reg, t2, now);
    Association.UpstreamAfterCreate(ts1, Connection.TagAssoc, Topical.NewRecord(k, tagDetails), t2, now);
    var (tag, ts2) := Association.CreateSpec(ts1, Connection.TagAssoc, Topical.NewRecord(k, tagDetails), t2, now).value;
    assert Association.Upstream(ts2, "Registration", k) == Association.Upstream(ts1, "Registration", k);
    ChainAlignment(ts2, k, alignDetails, reg, tag, t3, now);
    Association.UpstreamAfterCreate(ts2, AlignmentAssoc, Topical.NewRecord(k, alignDetails), t3, now);
    var (align, ts3) := Association.CreateSpec(ts2, AlignmentAssoc, Topical.NewRecord(k, alignDetails), t3, now).value;
    assert Association.Upstream(ts3, "Registration", k) == [reg];
    assert Association.Upstream(ts3, "Tag", k) == [tag];
    assert Association.Upstream(ts3, "Alignment", k) == [align];
    assert align[Association.LinkField].fields["registration_id"] == Str(t1);
    Association.DeleteClearsSoleDownstream(ts3, Connection.RegistrationAssoc, k, reg, Connection.TagAssoc.topic, k, tag);
    Association.DeleteClearsSoleDownstream(ts3, Connection.RegistrationAssoc, k, reg, AlignmentAssoc.topic, k, align);
    Association.DeleteThenRead(ts3, Connection.RegistrationAssoc, k);
  }

  // Models

  method CreateModel(db: Database, projectId: Value, exptId: Value, runId: Value, details: Doc, token: string, now: nat)
    returns (r: Result<Doc>)
    modifies db
    ensures var s := Association.CreateSpec(old(db.tables), ModelAssoc, Topical.NewRecord(ModelKey(projectId, exptId, runId), details), token, now);
      r == Answer(s) && db.tables == After(s, old(db.tables))
  {
    r := Association.Create(db, ModelAssoc, Topical.NewRecord(ModelKey(projectId, exptId, runId), details), token, now);
  }

  method ReadModel(db: Database, projectId: Value, exptId: Value, runId: Value) returns (r: Result<Option<Topical.Expanded>>)
    ensures r == Topical.ReadSpec(db.tables, ModelAssoc.topic, ModelKey(projectId, exptId, runId), Association.LinkField)
    ensures r.Success? && r.value.Some? ==> r.value.value.record[Topical.KeyField] == ModelKey(projectId, exptId, runId)
  {
    r := Association.Read(db, ModelAssoc, ModelKey(projectId, exptId, runId));
    Topical.ReadFindsByKey(db.tables, ModelAssoc.topic, ModelKey(projectId, exptId, runId), Association.LinkField);
  }

  method UpdateModel(db: Database, projectId: Value, exptId: Value, runId: Value, updates: Doc) returns (r: Result<Option<Doc>>)
    modifies db
    ensures var s := Association.UpdateSpec(old(db.tables), ModelAssoc, ModelKey(projectId, exptId, runId), updates);
      r == Answer(s) && db.tables == After(s, old(db.tables))
  {
    r := Association.Update(db, ModelAssoc, ModelKey(projectId, exptId, runId), updates);
  }

  method DeleteModel(db: Database, projectId: Value, exptId: Value, runId: Value) returns (r: Result<Topical.Expanded>)
    modifies db
    ensures var s := Association.DeleteSpec(old(db.tables), ModelAssoc, ModelKey(projectId, exptId, runId));
      r == Answer(s) && db.tables == After(s, old(db.tables))
  {
    r := Association.Delete(db, ModelAssoc, ModelKey(projectId, exptId, runId));
  }

  /**
   * A model has no upstream subjects, so its link always has exactly one
   * entry: its own `model_id`, mapped to the fresh token.
   */
  lemma ModelLinkIsOwn(ts: Tables, projectId: Value, exptId: Value, runId: Value, details: Doc, token: string, now: nat)
    ensures Association.CreateSpec(ts, ModelAssoc, Topical.NewRecord(ModelKey(projectId, exptId, runId), details), token, now).Success?
    ensures var d := Association.CreateSpec(ts, ModelAssoc, Topical.NewRecord(ModelKey(projectId, exptId, runId), details), token, now).value.0;
      Association.LinkField in d && d[Association.LinkField].Obj? && d[Association.LinkField].fields == map["model_id" := Str(token)]
  {
    Association.CreateWithoutAssociations(ts, ModelAssoc, Topical.NewRecord(ModelKey(projectId, exptId, runId), details), token, now);
  }

  /**
   * Deleting a run cascades into its models by `run_id`: afterwards no model
   * of that run, in any project or experiment, reads back.
   */
  lemma DeleteRunClearsModels(ts: Tables, projectId: Value, exptId: Value, runId: Value)
    requires Topical.DeleteSpec(ts, Connection.RunTopic, Connection.RunKey(projectId, exptId, runId), Topical.KeyField).Success?
    ensures var after := Topical.DeleteSpec(ts, Connection.RunTopic, Connection.RunKey(projectId, exptId, runId), Topical.KeyField).value.1;
      forall p, e :: Topical.ReadSpec(after, ModelAssoc.topic, ModelKey(p, e, runId), Association.LinkField) == Success(None)
  {
    var after := Topical.DeleteSpec(ts, Connection.RunTopic, Connection.RunKey(projectId, exptId, runId), Topical.KeyField).value.1;
    forall p, e ensures Topical.ReadSpec(after, ModelAssoc.topic, ModelKey(p, e, runId), Association.LinkField) == Success(None) {
      Topical.DeleteClearsChildren(ts, Connection.RunTopic, Connection.RunKey(projectId, exptId, runId),
                                   ModelAssoc.topic, ModelKey(p, e, runId), Association.LinkField);
    }
  }
}
