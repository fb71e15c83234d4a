/**
 * The connection entities: projects, participants, experiments and runs
 * (plain relational records) and registrations and tags (associative
 * records).  Each fixes its subject, identifier, composite-key builder and
 * relation and association lists; together they fix the cascade graph and
 * the first links of the chain Registration => Tag => Alignment.
 */
module Connection {
  import opened Store
  import Records
  import Topical
  import Association

  const ProjectTopic: Topical.Topic :=
    Topical.Topic("Project", "project_id",
      ["Experiment", "Run", "Registration", "Tag", "Alignment", "Model", "Validation", "Prediction"])
  const ParticipantTopic: Topical.Topic :=
    Topical.Topic("Participant", "participant_id", ["Registration", "Tag", "Alignment"])
  const ExperimentTopic: Topical.Topic :=
    Topical.Topic("Experiment", "expt_id", ["Run", "Model", "Validation", "Prediction"])
  const RunTopic: Topical.Topic :=
    Topical.Topic("Run", "run_id", ["Model", "Validation", "Prediction"])
  /** Registrations relate downstream to their project and participant too, though no such record carries a link. */
  const RegistrationAssoc: Association.Assoc :=
    Association.Assoc(Topical.Topic("Registration", "registration_id", ["Project", "Participant", "Tag", "Alignment"]), [])
  const TagAssoc: Association.Assoc :=
    Association.Assoc(Topical.Topic("Tag", "tag_id", ["Alignment"]), ["Registration"])

  // Composite keys

  function ProjectKey(projectId: Value): (k: Value)
    ensures k.Obj? && k.fields.Keys == {"project_id"} && k.fields["project_id"] == projectId
  {
    Obj(map["project_id" := projectId])
  }

  function ParticipantKey(participantId: Value): (k: Value)
    ensures k.Obj? && k.fields.Keys == {"participant_id"} && k.fields["participant_id"] == participantId
  {
    Obj(map["participant_id" := participantId])
  }

  function ExperimentKey(projectId: Value, exptId: Value): (k: Value)
    ensures k.Obj? && k.fields.Keys == {"project_id", "expt_id"}
    ensures k.fields["project_id"] == projectId && k.fields["expt_id"] == exptId
  {
    Obj(map["project_id" := projectId, "expt_id" := exptId])
  }

  function RunKey(projectId: Value, exptId: Value, runId: Value): (k: Value)
    ensures k.Obj? && k.fields.Keys == {"project_id", "expt_id", "run_id"}
    ensures k.fields["project_id"] == projectId && k.fields["expt_id"] == exptId && k.fields["run_id"] == runId
  {
    Obj(map["project_id" := projectId, "expt_id" := exptId, "run_id" := runId])
  }

  /** The key shared by a registration, the tag and the alignment of the same project and participant. */
  function PairKey(projectId: Value, participantId: Value): (k: Value)
    ensures k.Obj? && k.fields.Keys == {"project_id", "participant_id"}
    ensures k.fields["project_id"] == projectId && k.fields["participant_id"] == participantId
  {
    Obj(map["project_id" := projectId, "participant_id" := participantId])
  }

  // Projects

  method CreateProject(db: Database, projectId: Value, details: Doc, now: nat) returns (r: Result<Doc>)
    modifies db
    ensures var s := Topical.CreateSpec(old(db.tables), ProjectTopic, Topical.NewRecord(ProjectKey(projectId), details), now);
      r == Answer(s) && db.tables == After(s, old(db.tables))
  {
    r := Topical.Create(db, ProjectTopic, Topical.NewRecord(ProjectKey(projectId), details), now);
  }

  method ReadProject(db: Database, projectId: Value) returns (r: Result<Option<Topical.Expanded>>)
    ensures r == Topical.ReadSpec(db.tables, ProjectTopic, ProjectKey(projectId), Topical.KeyField)
    ensures r.Success? && r.value.Some? ==> r.value.value.record[Topical.KeyField] == ProjectKey(projectId)
  {
    r := Topical.Read(db, ProjectTopic, ProjectKey(projectId), Topical.KeyField);
    Topical.ReadFindsByKey(db.tables, ProjectTopic, ProjectKey(projectId), Topical.KeyField);
  }

  method UpdateProject(db: Database, projectId: Value, updates: Doc) returns (r: Result<Option<Doc>>)
    modifies db
    ensures var s := Topical.UpdateSpec(old(db.tables), ProjectTopic, ProjectKey(projectId), updates);
      r == Answer(s) && db.tables == After(s, old(db.tables))
  {
    r := Topical.Update(db, ProjectTopic, ProjectKey(projectId), updates);
  }

  method DeleteProject(db: Database, projectId: Value) returns (r: Result<Topical.Expanded>)
    modifies db
    ensures var s := Topical.DeleteSpec(old(db.tables), ProjectTopic, ProjectKey(projectId), Topical.KeyField);
      r == Answer(s) && db.tables == After(s, old(db.tables))
  {
    r := Topical.Delete(db, ProjectTopic, ProjectKey(projectId), Topical.KeyField);
  }

  /**
   * A project created under a fresh id reads back with its generated key and
   * exactly its details besides `key` and `created_at`; once deleted it reads
   * back as nothing.
   */
  lemma ProjectRoundTrip(ts: Tables, projectId: Value, details: Doc, now: nat)
    requires Topical.KeyField !in details && Records.CreatedAt !in details
    requires !Contains(TableOf(ts, "Project"), FieldIs(Topical.KeyField, ProjectKey(projectId)))
    ensures Topical.CreateSpec(ts, ProjectTopic, Topical.NewRecord(ProjectKey(projectId), details), now).Success?
    ensures var (d, mid) := Topical.CreateSpec(ts, ProjectTopic, Topical.NewRecord(ProjectKey(projectId), details), now).value;
      && Topical.ReadSpec(mid, ProjectTopic, ProjectKey(projectId), Topical.KeyField).Success?
      && Topical.ReadSpec(mid, ProjectTopic, ProjectKey(projectId), Topical.KeyField).value.Some?
      && Topical.ReadSpec(mid, ProjectTopic, ProjectKey(projectId), Topical.KeyField).value.value.record == d
      && d - {Topical.KeyField, Records.CreatedAt} == details
      && Topical.DeleteSpec(mid, ProjectTopic, ProjectKey(projectId), Topical.KeyField).Success?
      && Topical.ReadSpec(Topical.DeleteSpec(mid, ProjectTopic, ProjectKey(projectId), Topical.KeyField).value.1,
                          ProjectTopic, ProjectKey(projectId), Topical.KeyField) == Success(None)
  {
    Topical.RoundTrip(ts, ProjectTopic, ProjectKey(projectId), details, now);
  }

  /**
   * Deleting a project cascades into its experiments and runs by the project
   * id their keys carry, so none of them reads back afterwards.
   */
  lemma DeleteProjectClearsExperimentsAndRuns(ts: Tables, projectId: Value)
    requires Topical.DeleteSpec(ts, ProjectTopic, ProjectKey(projectId), Topical.KeyField).Success?
    ensures var after := Topical.DeleteSpec(ts, ProjectTopic, ProjectKey(projectId), Topical.KeyField).value.1;
      && (forall e :: Topical.ReadSpec(after, ExperimentTopic, ExperimentKey(projectId, e), Topical.KeyField) == Success(None))
      && (forall e, r :: Topical.ReadSpec(after, RunTopic, RunKey(projectId, e, r), Topical.KeyField) == Success(None))
  {
    var after := Topical.DeleteSpec(ts, ProjectTopic, ProjectKey(projectId), Topical.KeyField).value.1;
    forall e ensures Topical.ReadSpec(after, ExperimentTopic, ExperimentKey(projectId, e), Topical.KeyField) == Success(None) {
      Topical.DeleteClearsChildren(ts, ProjectTopic, ProjectKey(projectId), ExperimentTopic, ExperimentKey(projectId, e), Topical.KeyField);
    }
    forall e, r ensures Topical.ReadSpec(after, RunTopic, RunKey(projectId, e, r), Topical.KeyField) == Success(None) {
      Topical.DeleteClearsChildren(ts, ProjectTopic, ProjectKey(projectId), RunTopic, RunKey(projectId, e, r), Topical.KeyField);
    }
  }

  // Participants

  /** `create` for participants: the id must equal the details' `id`. */
  function CreateParticipantSpec(ts: Tables, participantId: Value, details: Doc, now: nat): Result<(Doc, Tables)>
  {
    if "id" !in details then Failure(MissingField("id"))
    else if participantId != details["id"] then Failure(IdentifierMismatch("id"))
    else Topical.CreateSpec(ts, ParticipantTopic, Topical.NewRecord(ParticipantKey(participantId), details), now)
  }

  /** Creating a participant succeeds exactly when its details carry its own id; otherwise nothing is written. */
  lemma ParticipantCreateChecksId(ts: Tables, participantId: Value, details: Doc, now: nat)
    ensures var s := CreateParticipantSpec(ts, participantId, details, now);
      && (s.Success? <==> "id" in details && details["id"] == participantId)
      && (s.Failure? ==> After(s, ts) == ts)
      && (s.Success? && Topical.KeyField !in details ==>
            var d := s.value.0;
            Topical.KeyField in d && d[Topical.KeyField] == ParticipantKey(participantId) && "id" in d && d["id"] == participantId)
  {
    Records.CreateUpserts(ts, ParticipantTopic.subject, Topical.KeyField, Topical.NewRecord(ParticipantKey(participantId), details), now);
  }

  method CreateParticipant(db: Database, participantId: Value, details: Doc, now: nat) returns (r: Result<Doc>)
    modifies db
    ensures var s := CreateParticipantSpec(old(db.tables), participantId, details, now);
      r == Answer(s) && db.tables == After(s, old(db.tables))
  {
    if "id" !in details {
      return Failure(MissingField("id"));
    }
    if participantId != details["id"] {
      return Failure(IdentifierMismatch("id"));
    }
    r := Topical.Create(db, ParticipantTopic, Topical.NewRecord(ParticipantKey(participantId), details), now);
  }

  method ReadParticipant(db: Database, participantId: Value) returns (r: Result<Option<Topical.Expanded>>)
    ensures r == Topical.ReadSpec(db.tables, ParticipantTopic, ParticipantKey(participantId), Topical.KeyField)
    ensures r.Success? && r.value.Some? ==> r.value.value.record[Topical.KeyField] == ParticipantKey(participantId)
  {
    r := Topical.Read(db, ParticipantTopic, ParticipantKey(participantId), Topical.KeyField);
    Topical.ReadFindsByKey(db.tables, ParticipantTopic, ParticipantKey(participantId), Topical.KeyField);
  }

  method UpdateParticipant(db: Database, participantId: Value, updates: Doc) returns (r: Result<Option<Doc>>)
    modifies db
    ensures var s := Topical.UpdateSpec(old(db.tables), ParticipantTopic, ParticipantKey(participantId), updates);
      r == Answer(s) && db.tables == After(s, old(db.tables))
  {
    r := Topical.Update(db, ParticipantTopic, ParticipantKey(participantId), updates);
  }

  method DeleteParticipant(db: Database, participantId: Value) returns (r: Result<Topical.Expanded>)
    modifies db
    ensures var s := Topical.DeleteSpec(old(db.tables), ParticipantTopic, ParticipantKey(participantId), Topical.KeyField);
      r == Answer(s) && db.tables == After(s, old(db.tables))
  {
    r := Topical.Delete(db, ParticipantTopic, ParticipantKey(participantId), Topical.KeyField);
  }

  // Experiments

  method CreateExperiment(db: Database, projectId: Value, exptId: Value, details: Doc, now: nat) returns (r: Result<Doc>)
    modifies db
    ensures var s := Topical.CreateSpec(old(db.tables), ExperimentTopic, Topical.NewRecord(ExperimentKey(projectId, exptId), details), now);
      r == Answer(s) && db.tables == After(s, old(db.tables))
  {
    r := Topical.Create(db, ExperimentTopic, Topical.NewRecord(ExperimentKey(projectId, exptId), details), now);
  }

  method ReadExperiment(db: Database, projectId: Value, exptId: Value) returns (r: Result<Option<Topical.Expanded>>)
    ensures r == Topical.ReadSpec(db.tables, ExperimentTopic, ExperimentKey(projectId, exptId), Topical.KeyField)
    ensures r.Success? && r.value.Some? ==> r.value.value.record[Topical.KeyField] == ExperimentKey(projectId, exptId)
  {
    r := Topical.Read(db, ExperimentTopic, ExperimentKey(projectId, exptId), Topical.KeyField);
    Topical.ReadFindsByKey(db.tables, ExperimentTopic, ExperimentKey(projectId, exptId), Topical.KeyField);
  }

  method UpdateExperiment(db: Database, projectId: Value, exptId: Value, updates: Doc) returns (r: Result<Option<Doc>>)
    modifies db
    ensures var s := Topical.UpdateSpec(old(db.tables), ExperimentTopic, ExperimentKey(projectId, exptId), updates);
      r == Answer(s) && db.tables == After(s, old(db.tables))
  {
    r := Topical.Update(db, ExperimentTopic, ExperimentKey(projectId, exptId), updates);
  }

  method DeleteExperiment(db: Database, projectId: Value, exptId: Value) returns (r: Result<Topical.Expanded>)
    modifies db
    ensures var s := Topical.DeleteSpec(old(db.tables), ExperimentTopic, ExperimentKey(projectId, exptId), Topical.KeyField);
      r == Answer(s) && db.tables == After(s, old(db.tables))
  {
    r := Topical.Delete(db, ExperimentTopic, ExperimentKey(projectId, exptId), Topical.KeyField);
  }

  /**
   * Deleting an experiment removes from Run, Model, Validation and Prediction
   * every record whose key names its `expt_id`; the cascade matches on
   * `expt_id` alone, so runs of that experiment id under any project are gone.
   */
  lemma DeleteExperimentClearsRuns(ts: Tables, projectId: Value, exptId: Value)
    requires Topical.DeleteSpec(ts, ExperimentTopic, ExperimentKey(projectId, exptId), Topical.KeyField).Success?
    ensures var after := Topical.DeleteSpec(ts, ExperimentTopic, ExperimentKey(projectId, exptId), Topical.KeyField).value.1;
      && (forall n, d | n in ExperimentTopic.relations && d in TableOf(after, n) ::
            !Holds(SubFieldIs(Topical.KeyField, "expt_id", exptId), d))
      && (forall p, r :: Topical.ReadSpec(after, RunTopic, RunKey(p, exptId, r), Topical.KeyField) == Success(None))
  {
    var rid := ExperimentKey(projectId, exptId);
    Topical.DeleteLeavesNoRelated(ts, ExperimentTopic, rid, Topical.KeyField);
    forall p, r ensures Topical.ReadSpec(Topical.DeleteSpec(ts, ExperimentTopic, rid, Topical.KeyField).value.1,
                                         RunTopic, RunKey(p, exptId, r), Topical.KeyField) == Success(None) {
      Topical.DeleteClearsChildren(ts, ExperimentTopic, rid, RunTopic, RunKey(p, exptId, r), Topical.KeyField);
    }
  }

  // Runs

  method CreateRun(db: Database, projectId: Value, exptId: Value, runId: Value, details: Doc, now: nat) returns (r: Result<Doc>)
    modifies db
    ensures var s := Topical.CreateSpec(old(db.tables), RunTopic, Topical.NewRecord(RunKey(projectId, exptId, runId), details), now);
      r == Answer(s) && db.tables == After(s, old(db.tables))
  {
    r := Topical.Create(db, RunTopic, Topical.NewRecord(RunKey(projectId, exptId, runId), details), now);
  }

  method ReadRun(db: Database, projectId: Value, exptId: Value, runId: Value) returns (r: Result<Option<Topical.Expanded>>)
    ensures r == Topical.ReadSpec(db.tables, RunTopic, RunKey(projectId, exptId, runId), Topical.KeyField)
    ensures r.Success? && r.value.Some? ==> r.value.value.record[Topical.KeyField] == RunKey(projectId, exptId, runId)
  {
    r := Topical.Read(db, RunTopic, RunKey(projectId, exptId, runId), Topical.KeyField);
    Topical.ReadFindsByKey(db.tables, RunTopic, RunKey(projectId, exptId, runId), Topical.KeyField);
  }

  method UpdateRun(db: Database, projectId: Value, exptId: Value, runId: Value, updates: Doc) returns (r: Result<Option<Doc>>)
    modifies db
    ensures var s := Topical.UpdateSpec(old(db.tables), RunTopic, RunKey(projectId, exptId, runId), updates);
      r == Answer(s) && db.tables == After(s, old(db.tables))
  {
    r := Topical.Update(db, RunTopic, RunKey(projectId, exptId, runId), updates);
  }

  method DeleteRun(db: Database, projectId: Value, exptId: Value, runId: Value) returns (r: Result<Topical.Expanded>)
    modifies db
    ensures var s := Topical.DeleteSpec(old(db.tables), RunTopic, RunKey(projectId, exptId, runId), Topical.KeyField);
      r == Answer(s) && db.tables == After(s, old(db.tables))
  {
    r := Topical.Delete(db, RunTopic, RunKey(projectId, exptId, runId), Topical.KeyField);
  }

  // Registrations

  /**
   * The project and participant a registration names, each as stored (its
   * `relations` dropped); both must exist.
   */
  function CrossLink(ts: Tables, projectId: Value, participantId: Value): (r: Result<map<string, Value>>)
    ensures r.Success? ==> r.value.Keys == {"project", "participant"}
  {
    match Topical.ReadSpec(ts, ProjectTopic, ProjectKey(projectId), Topical.KeyField)
    case Failure(e) => Failure(e)
    case Success(project) =>
      match Topical.ReadSpec(ts, ParticipantTopic, ParticipantKey(participantId), Topical.KeyField)
      case Failure(e) => Failure(e)
      case Success(participant) =>
        if project.None? || participant.None? then Failure(MissingRecord)
        else Success(map["project" := Obj(project.value.record), "participant" := Obj(participant.value.record)])
  }

  /**
   * Cross-linking succeeds exactly when both the project and the participant
   * are stored, and then attaches the records found under their generated keys.
   */
  lemma CrossLinkFindsBoth(ts: Tables, projectId: Value, participantId: Value)
    ensures var r := CrossLink(ts, projectId, participantId);
      && (r.Success? <==>
            && Contains(TableOf(ts, "Project"), FieldIs(Topical.KeyField, ProjectKey(projectId)))
            && Contains(TableOf(ts, "Participant"), FieldIs(Topical.KeyField, ParticipantKey(participantId))))
      && (r.Success? ==>
            && r.value["project"] == Obj(Get(TableOf(ts, "Project"), FieldIs(Topical.KeyField, ProjectKey(projectId))).value)
            && r.value["participant"] == Obj(Get(TableOf(ts, "Participant"), FieldIs(Topical.KeyField, ParticipantKey(participantId))).value))
  {
    Topical.ReadFindsByKey(ts, ProjectTopic, ProjectKey(projectId), Topical.KeyField);
    Topical.ReadFindsByKey(ts, ParticipantTopic, ParticipantKey(participantId), Topical.KeyField);
  }

  /** `__cross_link_subjects`, concise form. */
  method CrossLinkSubjects(db: Database, projectId: Value, participantId: Value) returns (r: Result<map<string, Value>>)
    ensures r == CrossLink(db.tables, projectId, participantId)
  {
    var project := ReadProject(db, projectId);
    if project.Failure? {
      return Failure(project.error);
    }
    var participant := ReadParticipant(db, participantId);
    if participant.Failure? {
      return Failure(participant.error);
    }
    if project.value.None? || participant.value.None? {
      return Failure(MissingRecord);
    }
    r := Success(map["project" := Obj(project.value.value.record), "participant" := Obj(participant.value.value.record)]);
  }

  /** A registration with its project and participant merged in. */
  function Attach(x: Topical.Expanded, links: map<string, Value>): Topical.Expanded
  {
    Topical.Expanded(x.record + links, x.relations)
  }

  /** `read` for registrations: by key, expanded through `link`, then cross-linked. */
  function ReadRegistrationSpec(ts: Tables, projectId: Value, participantId: Value): Result<Option<Topical.Expanded>>
  {
    match Topical.ReadSpec(ts, RegistrationAssoc.topic, PairKey(projectId, participantId), Association.LinkField)
    case Failure(e) => Failure(e)
    case Success(None) => Success(None)
    case Success(Some(x)) =>
      match CrossLink(ts, projectId, participantId)
      case Failure(e) => Failure(e)
      case Success(links) => Success(Some(Attach(x, links)))
  }

  /**
   * A registration read back carries the stored project and participant it
   * names under `project` and `participant`, besides its own key.
   */
  lemma RegistrationReadCrossLinks(ts: Tables, projectId: Value, participantId: Value)
    requires ReadRegistrationSpec(ts, projectId, participantId).Success?
    requires ReadRegistrationSpec(ts, projectId, participantId).value.Some?
    ensures var rec := ReadRegistrationSpec(ts, projectId, participantId).value.value.record;
      && Topical.KeyField in rec && rec[Topical.KeyField] == PairKey(projectId, participantId)
      && "project" in rec && rec["project"] == Obj(Get(TableOf(ts, "Project"), FieldIs(Topical.KeyField, ProjectKey(projectId))).value)
      && "participant" in rec && rec["participant"] == Obj(Get(TableOf(ts, "Participant"), FieldIs(Topical.KeyField, ParticipantKey(participantId))).value)
  {
    var read := Topical.ReadSpec(ts, RegistrationAssoc.topic, PairKey(projectId, participantId), Association.LinkField);
    var links := CrossLink(ts, projectId, participantId);
    Topical.ReadFindsByKey(ts, RegistrationAssoc.topic, PairKey(projectId, participantId), Association.LinkField);
    CrossLinkFindsBoth(ts, projectId, participantId);
    var x := read.value.value;
    var y := Attach(x, links.value);
    assert ReadRegistrationSpec(ts, projectId, participantId).value.value == y;
    AttachKeepsKey(x, links.value);
  }

  /**
   * A stored registration whose link names its `registration_id` reads back,
   * cross-linked, whenever its project and participant are both stored.
   */
  lemma RegistrationReadSucceeds(ts: Tables, projectId: Value, participantId: Value)
    requires Get(TableOf(ts, "Registration"), FieldIs(Topical.KeyField, PairKey(projectId, participantId))).Some?
    requires var d := Get(TableOf(ts, "Registration"), FieldIs(Topical.KeyField, PairKey(projectId, participantId))).value;
      Association.LinkField in d && d[Association.LinkField].Obj? && "registration_id" in d[Association.LinkField].fields
    requires Contains(TableOf(ts, "Project"), FieldIs(Topical.KeyField, ProjectKey(projectId)))
    requires Contains(TableOf(ts, "Participant"), FieldIs(Topical.KeyField, ParticipantKey(participantId)))
    ensures ReadRegistrationSpec(ts, projectId, participantId).Success?
    ensures ReadRegistrationSpec(ts, projectId, participantId).value.Some?
    ensures var rec := ReadRegistrationSpec(ts, projectId, participantId).value.value.record;
      && "project" in rec && rec["project"] == Obj(Get(TableOf(ts, "Project"), FieldIs(Topical.KeyField, ProjectKey(projectId))).value)
      && "participant" in rec && rec["participant"] == Obj(Get(TableOf(ts, "Participant"), FieldIs(Topical.KeyField, ParticipantKey(participantId))).value)
  {
    CrossLinkFindsBoth(ts, projectId, participantId);
    RegistrationReadCrossLinks(ts, projectId, participantId);
  }

  /** Attaching the cross-linked pair keeps the key and adds the pair. */
  lemma AttachKeepsKey(x: Topical.Expanded, links: map<string, Value>)
    requires Topical.KeyField in x.record && links.Keys == {"project", "participant"}
    ensures var rec := Attach(x, links).record;
      && Topical.KeyField in rec && rec[Topical.KeyField] == x.record[Topical.KeyField]
      && "project" in rec && rec["project"] == links["project"]
      && "participant" in rec && rec["participant"] == links["participant"]
  {
  }

  /** A registration whose project or participant is missing cannot be read. */
  lemma RegistrationReadNeedsBoth(ts: Tables, projectId: Value, participantId: Value)
    requires Contains(TableOf(ts, "Registration"), FieldIs(Topical.KeyField, PairKey(projectId, participantId)))
    requires !Contains(TableOf(ts, "Project"), FieldIs(Topical.KeyField, ProjectKey(projectId))) ||
             !Contains(TableOf(ts, "Participant"), FieldIs(Topical.KeyField, ParticipantKey(participantId)))
    ensures ReadRegistrationSpec(ts, projectId, participantId).Failure?
  {
    var read := Topical.ReadSpec(ts, RegistrationAssoc.topic, PairKey(projectId, participantId), Association.LinkField);
    Topical.ReadFindsByKey(ts, RegistrationAssoc.topic, PairKey(projectId, participantId), Association.LinkField);
    CrossLinkFindsBoth(ts, projectId, participantId);
    assert read.Success? ==> read.value.Some?;
  }

  /** The arguments `**record['key']` supplies: exactly a project id and a participant id. */
  function KeyArgs(d: Doc): (r: Option<(Value, Value)>)
    ensures r.Some? ==> Topical.KeyField in d && d[Topical.KeyField] == PairKey(r.value.0, r.value.1)
  {
    if Topical.KeyField in d && d[Topical.KeyField].Obj? && d[Topical.KeyField].fields.Keys == {"project_id", "participant_id"}
    then Some((d[Topical.KeyField].fields["project_id"], d[Topical.KeyField].fields["participant_id"]))
    else None
  }

  /**
   * `y` is the registration `x` cross-linked: the key of `x` names a project
   * and a participant, and `y` keeps the relations and every field of `x`
   * besides `project` and `participant`, which it adds.
   */
  predicate Attached(x: Topical.Expanded, y: Topical.Expanded)
  {
    && KeyArgs(x.record).Some?
    && y.relations == x.relations
    && y.record.Keys == x.record.Keys + {"project", "participant"}
    && (forall f | f in x.record && f != "project" && f != "participant" :: y.record[f] == x.record[f])
  }

  lemma AttachIsAttached(x: Topical.Expanded, links: map<string, Value>)
    requires KeyArgs(x.record).Some? && links.Keys == {"project", "participant"}
    ensures Attached(x, Attach(x, links))
  {
  }

  /** One registration of a bulk read, cross-linked through the ids its key holds. */
  function Linked(ts: Tables, x: Topical.Expanded): (r: Result<Topical.Expanded>)
    ensures r.Success? ==> Attached(x, r.value)
  {
    match KeyArgs(x.record)
    case None => Failure(MissingField(Topical.KeyField))
    case Some(args) =>
      match CrossLink(ts, args.0, args.1)
      case Failure(e) => Failure(e)
      case Success(links) => AttachIsAttached(x, links); Success(Attach(x, links))
  }

  /** The outcome of cross-linking each registration of `xs` on its own. */
  function Outcomes(ts: Tables, xs: seq<Topical.Expanded>): (rs: seq<Result<Topical.Expanded>>)
    ensures |rs| == |xs| && forall i | 0 <= i < |xs| :: rs[i] == Linked(ts, xs[i])
  {
    seq(|xs|, i requires 0 <= i < |xs| => Linked(ts, xs[i]))
  }

  /** The values of `rs` in order, or the first failure among them. */
  function Gather(rs: seq<Result<Topical.Expanded>>): Result<seq<Topical.Expanded>>
    decreases |rs|
  {
    if rs == [] then Success([])
    else
      match Gather(rs[..|rs| - 1])
      case Failure(e) => Failure(e)
      case Success(acc) =>
        match rs[|rs| - 1]
        case Failure(e) => Failure(e)
        case Success(y) => Success(acc + [y])
  }

  /** Cross-links every registration of `xs`, in order, stopping at the first failure. */
  function CrossLinkAll(ts: Tables, xs: seq<Topical.Expanded>): Result<seq<Topical.Expanded>>
  {
    Gather(Outcomes(ts, xs))
  }

  /** Gathering one more outcome appends its value, or fails with it. */
  lemma GatherStep(rs: seq<Result<Topical.Expanded>>, i: nat, acc: seq<Topical.Expanded>)
    requires i < |rs| && Gather(rs[..i]) == Success(acc)
    ensures Gather(rs[..i + 1]) ==
      match rs[i]
      case Failure(e) => Failure(e)
      case Success(y) => Success(acc + [y])
  {
    assert rs[..i + 1][..i] == rs[..i];
  }

  /** Once a prefix has failed, the whole gathering fails the same way. */
  lemma {:induction false} GatherFailureSticks(rs: seq<Result<Topical.Expanded>>, k: nat)
    requires k <= |rs| && Gather(rs[..k]).Failure?
    ensures Gather(rs) == Gather(rs[..k])
    decreases |rs| - k
  {
    if k < |rs| {
      assert rs[..k + 1][..k] == rs[..k];
      GatherFailureSticks(rs, k + 1);
    } else {
      assert rs[..k] == rs;
    }
  }

  /**
   * Gathering succeeds exactly when every outcome does, and then yields their
   * values in order.
   */
  lemma {:induction false} GatherValues(rs: seq<Result<Topical.Expanded>>)
    ensures Gather(rs).Success? <==> forall i | 0 <= i < |rs| :: rs[i].Success?
    ensures Gather(rs).Success? ==>
      |Gather(rs).value| == |rs| && forall i | 0 <= i < |rs| :: rs[i] == Success(Gather(rs).value[i])
    decreases |rs|
  {
    if rs != [] {
      var init := rs[..|rs| - 1];
      GatherValues(init);
      assert forall i | 0 <= i < |init| :: init[i] == rs[i];
    }
  }

  /**
   * Cross-linking keeps the registrations and their order, each one attached
   * to the project and participant its key names.
   */
  lemma CrossLinkAllKeepsOrder(ts: Tables, xs: seq<Topical.Expanded>)
    requires CrossLinkAll(ts, xs).Success?
    ensures var ys := CrossLinkAll(ts, xs).value;
      |ys| == |xs| && forall i | 0 <= i < |ys| :: Attached(xs[i], ys[i])
  {
    GatherValues(Outcomes(ts, xs));
  }

  /** `read_all` for registrations: the filtered bulk read through `link`, each one cross-linked. */
  function ReadAllRegistrationsSpec(ts: Tables, filter: map<string, Value>): Result<seq<Topical.Expanded>>
  {
    match Topical.Select(ts, RegistrationAssoc.topic, TableOf(ts, "Registration"), Association.LinkField, filter)
    case Failure(e) => Failure(e)
    case Success(xs) => CrossLinkAll(ts, xs)
  }

  /** One step of the bulk read: cross-link a registration through the ids its key holds. */
  method LinkRegistration(db: Database, x: Topical.Expanded) returns (r: Result<Topical.Expanded>)
    ensures r == Linked(db.tables, x)
  {
    var args := KeyArgs(x.record);
    if args.None? {
      return Failure(MissingField(Topical.KeyField));
    }
    var links := CrossLinkSubjects(db, args.value.0, args.value.1);
    if links.Failure? {
      return Failure(links.error);
    }
    r := Success(Attach(x, links.value));
  }

  /** The loop of the bulk read: cross-link each registration in turn, stopping at the first failure. */
  method LinkRegistrations(db: Database, xs: seq<Topical.Expanded>) returns (r: Result<seq<Topical.Expanded>>)
    ensures r == CrossLinkAll(db.tables, xs)
  {
    ghost var rs := Outcomes(db.tables, xs);
    var linked: seq<Topical.Expanded> := [];
    var i := 0;
    while i < |xs|
      invariant 0 <= i <= |xs|
      invariant Gather(rs[..i]) == Success(linked)
    {
      var y := LinkRegistration(db, xs[i]);
      GatherStep(rs, i, linked);
      if y.Failure? {
        GatherFailureSticks(rs, i + 1);
        return Failure(y.error);
      }
      linked := linked + [y.value];
      i := i + 1;
    }
    assert rs[..i] == rs;
    r := Success(linked);
  }

  method ReadAllRegistrations(db: Database, filter: map<string, Value>) returns (r: Result<seq<Topical.Expanded>>)
    ensures r == ReadAllRegistrationsSpec(db.tables, filter)
  {
    var all := Association.ReadAll(db, RegistrationAssoc, filter);
    if all.Failure? {
      return Failure(all.error);
    }
    r := LinkRegistrations(db, all.value);
  }

  method CreateRegistration(db: Database, projectId: Value, participantId: Value, details: Doc, token: string, now: nat)
    returns (r: Result<Doc>)
    modifies db
    ensures var s := Association.CreateSpec(old(db.tables), RegistrationAssoc, Topical.NewRecord(PairKey(projectId, participantId), details), token, now);
      r == Answer(s) && db.tables == After(s, old(db.tables))
  {
    r := Association.Create(db, RegistrationAssoc, Topical.NewRecord(PairKey(projectId, participantId), details), token, now);
  }

  method ReadRegistration(db: Database, projectId: Value, participantId: Value) returns (r: Result<Option<Topical.Expanded>>)
    ensures r == ReadRegistrationSpec(db.tables, projectId, participantId)
  {
    var registration := Association.Read(db, RegistrationAssoc, PairKey(projectId, participantId));
    if registration.Failure? || registration.value.None? {
      return registration;
    }
    var links := CrossLinkSubjects(db, projectId, participantId);
    if links.Failure? {
      return Failure(links.error);
    }
    r := Success(Some(Attach(registration.value.value, links.value)));
  }

  method UpdateRegistration(db: Database, projectId: Value, participantId: Value, updates: Doc) returns (r: Result<Option<Doc>>)
    modifies db
    ensures var s := Association.UpdateSpec(old(db.tables), RegistrationAssoc, PairKey(projectId, participantId), updates);
      r == Answer(s) && db.tables == After(s, old(db.tables))
  {
    r := Association.Update(db, RegistrationAssoc, PairKey(projectId, participantId), updates);
  }

  method DeleteRegistration(db: Database, projectId: Value, participantId: Value) returns (r: Result<Topical.Expanded>)
    modifies db
    ensures var s := Association.DeleteSpec(old(db.tables), RegistrationAssoc, PairKey(projectId, participantId));
      r == Answer(s) && db.tables == After(s, old(db.tables))
  {
    r := Association.Delete(db, RegistrationAssoc, PairKey(projectId, participantId));
  }

  /**
   * Registration's hidden relations Project and Participant are inert: as long
   * as no project or participant record carries a `link`, deleting a
   * registration leaves both tables exactly as they were.
   */
  lemma DeleteRegistrationKeepsProjects(ts: Tables, projectId: Value, participantId: Value)
    requires Association.DeleteSpec(ts, RegistrationAssoc, PairKey(projectId, participantId)).Success?
    requires forall d | d in TableOf(ts, "Project") :: Association.LinkField !in d
    requires forall d | d in TableOf(ts, "Participant") :: Association.LinkField !in d
    ensures var after := Association.DeleteSpec(ts, RegistrationAssoc, PairKey(projectId, participantId)).value.1;
      TableOf(after, "Project") == TableOf(ts, "Project") && TableOf(after, "Participant") == TableOf(ts, "Participant")
  {
    var t := RegistrationAssoc.topic;
    var main := Get(TableOf(ts, t.subject), FieldIs(Topical.KeyField, PairKey(projectId, participantId))).value;
    var l := main[Association.LinkField];
    Topical.DeleteCascadesExactly(ts, t, l, Association.LinkField);
    NoMatch(TableOf(ts, "Project"), Topical.RelatedQuery(t, l, Association.LinkField));
    NoMatch(TableOf(ts, "Participant"), Topical.RelatedQuery(t, l, Association.LinkField));
  }

  // Tags

  method CreateTag(db: Database, projectId: Value, participantId: Value, details: Doc, token: string, now: nat)
    returns (r: Result<Doc>)
    modifies db
    ensures var s := Association.CreateSpec(old(db.tables), TagAssoc, Topical.NewRecord(PairKey(projectId, participantId), details), token, now);
      r == Answer(s) && db.tables == After(s, old(db.tables))
  {
    r := Association.Create(db, TagAssoc, Topical.NewRecord(PairKey(projectId, participantId), details), token, now);
  }

  method ReadTag(db: Database, projectId: Value, participantId: Value) returns (r: Result<Option<Topical.Expanded>>)
    ensures r == Topical.ReadSpec(db.tables, TagAssoc.topic, PairKey(projectId, participantId), Association.LinkField)
    ensures r.Success? && r.value.Some? ==> r.value.value.record[Topical.KeyField] == PairKey(projectId, participantId)
  {
    r := Association.Read(db, TagAssoc, PairKey(projectId, participantId));
    Topical.ReadFindsByKey(db.tables, TagAssoc.topic, PairKey(projectId, participantId), Association.LinkField);
  }

  method UpdateTag(db: Database, projectId: Value, participantId: Value, updates: Doc) returns (r: Result<Option<Doc>>)
    modifies db
    ensures var s := Association.UpdateSpec(old(db.tables), TagAssoc, PairKey(projectId, participantId), updates);
      r == Answer(s) && db.tables == After(s, old(db.tables))
  {
    r := Association.Update(db, TagAssoc, PairKey(projectId, participantId), updates);
  }

  method DeleteTag(db: Database, projectId: Value, participantId: Value) returns (r: Result<Topical.Expanded>)
    modifies db
    ensures var s := Association.DeleteSpec(old(db.tables), TagAssoc, PairKey(projectId, participantId));
      r == Answer(s) && db.tables == After(s, old(db.tables))
  {
    r := Association.Delete(db, TagAssoc, PairKey(projectId, participantId));
  }

  /**
   * A tag's link is its own `tag_id` merged with the link of the one
   * registration of the same project and participant.
   */
  lemma TagInheritsRegistrationLink(ts: Tables, projectId: Value, participantId: Value, details: Doc, token: string, now: nat)
    requires Topical.KeyField !in details
    requires Records.UniqueBy(TableOf(ts, "Registration"), Topical.KeyField)
    requires Contains(TableOf(ts, "Registration"), FieldIs(Topical.KeyField, PairKey(projectId, participantId)))
    requires var reg := Get(TableOf(ts, "Registration"), FieldIs(Topical.KeyField, PairKey(projectId, participantId))).value;
      Association.LinkField in reg && reg[Association.LinkField].Obj?
    ensures Association.CreateSpec(ts, TagAssoc, Topical.NewRecord(PairKey(projectId, participantId), details), token, now).Success?
    ensures var reg := Get(TableOf(ts, "Registration"), FieldIs(Topical.KeyField, PairKey(projectId, participantId))).value;
      var d := Association.CreateSpec(ts, TagAssoc, Topical.NewRecord(PairKey(projectId, participantId), details), token, now).value.0;
      Association.LinkField in d && d[Association.LinkField] == Obj(map["tag_id" := Str(token)] + reg[Association.LinkField].fields)
  {
    var k := PairKey(projectId, participantId);
    var reg := Get(TableOf(ts, "Registration"), FieldIs(Topical.KeyField, k)).value;
    Records.UniqueSearchIsGet(TableOf(ts, "Registration"), Topical.KeyField, k);
    var link := map["tag_id" := Str(token)] + reg[Association.LinkField].fields;
    assert Association.Accumulate(ts, TagAssoc.associations, k, map["tag_id" := Str(token)]) == Success(link);
    Records.CreateUpserts(ts, "Tag", Topical.KeyField, Topical.NewRecord(k, details)[Association.LinkField := Obj(link)], now);
  }
}
