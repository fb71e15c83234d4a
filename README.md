# synarchive record engine, modelled in Dafny

synarchive is the archive behind a federated-learning orchestrator. It keeps
every entity — projects, participants, experiments, runs, registrations,
tags, alignments, models, MLFlow name mappings, validations and predictions —
as JSON documents in named tables of one document store. Three layers sit on
that store, and each entity class only configures one of them:

- `Records` works on a single table. `create` stamps a creation time with its
  sub-second digits dropped and upserts by one identity field. `read`,
  `update` and `delete` find records by that field.
- `TopicalRecords` identifies a record by its composite `key`. A read expands
  the record with its downstream `relations`: one entry per relation subject,
  holding that subject's records whose key (or link) carries the same
  identifier value. A delete cascades into those subjects first, then removes
  the record itself.
- `AssociationRecords` gives each record a `link`. The link is the record's
  own fresh identifier merged with the links of the upstream records that
  share its key (Registration => Tag => Alignment). Reads and cascades follow
  the link, not the key.

The model has seven modules, one per layer or entity file:

- `Store` is the document store: values, documents, tables, the two query
  shapes the engine builds, and the table primitives search, get,
  update-where and remove-where.
- `Records`, `Topical` and `Association` are the three layers.
- `Connection`, `Training` and `Evaluation` are the entity classes.

Each operation is written three ways:

- a pure specification function over the whole store, returning
  `Success((answer, new store))` or `Failure(error)`;
- an imperative method on a `Database` object, whose `tables` field it
  updates. Its `ensures` ties the answer and the new state to that function,
  and its loops are the source's loops;
- lemmas about the function for the properties the code and its tests
  promise.

Every Python exception on these paths becomes a `Failure` value. This covers
`KeyError`, a subscript on `None` and a failed `assert`. Every such failure
happens before the first write, so a failed call leaves the store as it was.

Five behaviours of the code worth knowing; the model follows the code:

- **Upsert merges.** A create under an existing key merges the new fields
  into the stored record. It does not replace the record.
- **Updating a missing record is not an error.** It writes nothing and
  returns `None`.
- **Registrations have two hidden relations.** Their relations include
  Project and Participant as well as Tag and Alignment.
- **The experiment cascade crosses projects.** Deleting an experiment matches
  downstream records on `expt_id` alone, so same-named runs, models,
  validations and predictions of other projects are deleted too.
- **Validation and prediction associations never match.** They look up Model
  (and Registration, Tag) records by equality of the whole key. Their
  five-field key names a `collab_id` that no upstream key has, so their link is
  their own identifier alone. For the same reason, deleting a model does not
  cascade into them.

## Model

| member | source | states |
|---|---|---|
| `Store.Search` | synarchive/base.py:245-250 | a table search returns exactly the documents of the table that satisfy the query, never more than the table holds |
| `Store.Remove` | synarchive/base.py:196-198 | remove-where keeps exactly the documents that do not satisfy the query |
| `Store.Apply` | synarchive/base.py:169-171 | update-where merges the updates into each matching document at its position and leaves every other document as it was |
| `Store.Get` | synarchive/base.py:145-147 | get finds a document exactly when some document matches, and what it returns is a matching document of the table |
| `Store.SearchRemovePartition` | synarchive/base.py:331-344 | the documents a cascade removes and the documents it keeps make up the table exactly (as multisets) |
| `Store.RemoveIdempotent` | synarchive/base.py:335-338 | removing by the same query a second time removes nothing more |
| `Store.NoMatch` | synarchive/base.py:415-423 | a table with no matching document yields an empty search, no get result, and an unchanged table on removal |
| `Records.WholeSeconds` | synarchive/base.py:98-103 | the creation time is the clock reading truncated to whole seconds: a multiple of a second, at most the reading and less than one second below it |
| `Records.UpsertStores` | synarchive/base.py:105-111 | after an upsert, a get by the new key finds a record containing every field of the new record |
| `Records.UpsertKeysFrom` | synarchive/base.py:105-109 | an upsert adds or rewrites only records that end up carrying the new record's key |
| `Records.ApplyKeepsKey` | synarchive/base.py:169-171 | merging updates that do not name the identity field leaves every record's identity as it was |
| `Records.UpsertKeepsKeysUnique` | synarchive/base.py:105-109 | if no two records share a key before an upsert, none do after it |
| `Records.CreateUpserts` | synarchive/base.py:80-113 | a create with its key always succeeds; it returns the record stored under the key, with the creation time in whole seconds and every field of the new record; the table grows by one exactly when the key was new; no other table changes |
| `Records.CreateLeavesOtherRecords` | synarchive/base.py:105-109 | records whose key differs from the new one stay exactly as they were, at their positions |
| `Records.CreateKeepsKeysUnique` | synarchive/base.py:80-113 | create keeps the identity field unique in the table it writes |
| `Records.UniqueKeyIdentifies` | synarchive/base.py:105-111 | in a table with unique keys, two records with the same key are one record |
| `Records.UniqueKeyMatchesAtMostOnce` | synarchive/base.py:417-420 | in a table with unique keys, a search by key finds at most one record, so the association lookup's at-most-one assertion holds |
| `Records.UniqueSearchIsGet` | synarchive/base.py:417-422 | in a table with unique keys, a search for a present key finds exactly the record a get returns |
| `Records.CreateInsertsFresh` | synarchive/base.py:108-113 | a create under a new key appends exactly the stamped record and returns it |
| `Records.CreateTwiceKeepsOne` | synarchive/base.py:105-111 | creating twice under the same key leaves exactly one record with that key, holding the second call's fields and creation time |
| `Records.GetAfterApply` | synarchive/base.py:171-173 | after merging updates that spare the identity field, the get returns the first match with the updates merged in, or nothing if there was no match |
| `Records.UpdateMerges` | synarchive/base.py:152-175 | update returns a record exactly when one had the key, equal to the old record merged with the updates; the table keeps its length; other records and tables are unchanged |
| `Records.DeleteRemovesMatches` | synarchive/base.py:178-202 | delete returns the record as it was; afterwards no record has the key (the assertion at line 200); the removed records are exactly the matches; no other table changes |
| `Records.Create` | synarchive/base.py:80-113 | the method's answer and new store are those of the create specification |
| `Records.ReadAll` | synarchive/base.py:116-130 | every record of the table, in storage order |
| `Records.Read` | synarchive/base.py:133-149 | the first record with the key value, a record of the table that matches |
| `Records.Update` | synarchive/base.py:152-175 | the method's answer and new store are those of the update specification |
| `Records.Delete` | synarchive/base.py:178-202 | the method's answer and new store are those of the delete specification, and no record with the key is left |
| `Topical.Related` | synarchive/base.py:230-252 | the related-records lookup succeeds exactly when no relations are configured or the identity has the identifier field, and then has one entry per relation subject |
| `Topical.RelatedFindsMatches` | synarchive/base.py:244-250 | each entry holds exactly the records of that subject's table whose key (or link) carries the identity's identifier value, in storage order |
| `Topical.Expand` | synarchive/base.py:254-266 | an expanded record is the record itself with one relations entry per relation subject |
| `Topical.GetRelatedMetadata` | synarchive/base.py:230-252 | the loop over relation subjects computes exactly the related-records lookup, including its failure |
| `Topical.ExpandRecord` | synarchive/base.py:254-266 | the method computes exactly the expansion of the record through its field |
| `Topical.Keeps` | synarchive/base.py:289-294 | the bulk-read filter keeps a record exactly when the filter's pairs lie within its key, within its foreign-key field, or within the record; it fails exactly when the record has no key mapping, or the filter is not within the key and the foreign-key field is missing or not a mapping |
| `Topical.EmptyFilterKeeps` | synarchive/base.py:276-294 | the default empty filter keeps every record that has a key mapping |
| `Topical.SelectKeepsExactly` | synarchive/base.py:276-297 | a successful bulk read returns, expanded, exactly the table's records the filter keeps, each with the related records its expansion finds |
| `Topical.SelectKeepsOrder` | synarchive/base.py:276-297 | a successful bulk read returns the kept records once each, in storage order |
| `Topical.SelectFailureSticks` | synarchive/base.py:286-297 | once a record makes the bulk read fail, the whole read fails the same way |
| `Topical.SelectEmptyFilterKeepsAll` | synarchive/base.py:276-297 | with the empty filter, every record is returned in storage order |
| `Topical.ReadFindsByKey` | synarchive/base.py:300-304 | a read finds something exactly when a record has the key, and what it finds is the first such record, carrying that key; with relations configured, each relation subject lists exactly the records of that table sharing the record's identifier value |
| `Topical.NewRecord` | synarchive/connection.py:60-63 | an entity's new record has the generated key and every detail field, and minus its key it is exactly the details |
| `Topical.CreateReturnsDetails` | synarchive/base.py:272-273 | creating an entity stores it under its key with all its details; under a new key, the stored record minus key and created_at is the details |
| `Topical.UpdateGuardsKey` | synarchive/base.py:307-309 | an update touching key fails and writes nothing; any other update merges into the record with that key, returns None exactly when there is none, and changes nothing else |
| `Topical.CascadeClosedForm` | synarchive/base.py:331-338 | after the cascade loop, every relation table has lost exactly its matches and every other table is untouched |
| `Topical.DeleteSucceedsIff` | synarchive/base.py:312-353 | a cascading delete succeeds exactly when the record exists and, with relations configured, its identity has the identifier field |
| `Topical.DeleteRemovesRecord` | synarchive/base.py:346-353 | delete returns the record as it was, the record leaves its table while every other record of that table stays in place, and tables outside the relations are unchanged |
| `Topical.DeleteCascadesExactly` | synarchive/base.py:331-344 | each relation table loses exactly the records sharing the identifier value; these are the records listed under the returned relations; together they make up the old table |
| `Topical.DeleteOnlyRemoves` | synarchive/base.py:312-353 | whatever any table holds after a cascading delete, it held before |
| `Topical.DeleteClearsChildren` | synarchive/base.py:331-338 | after a delete, no child whose key carries the deleted identifier value is left in a relation table, and reading such a child finds nothing |
| `Topical.DeleteLeavesNoRelated` | synarchive/base.py:331-344 | after a delete, no relation table holds a record sharing the deleted identifier value |
| `Topical.Create` | synarchive/base.py:272-273 | the method's answer and new store are those of the create specification |
| `Topical.ReadAll` | synarchive/base.py:276-297 | the filtering and expanding loop computes exactly the bulk-read specification, including its first failure |
| `Topical.Read` | synarchive/base.py:300-304 | the method computes exactly the read specification |
| `Topical.Update` | synarchive/base.py:307-309 | the method's answer and new store are those of the update specification |
| `Topical.CascadeDelete` | synarchive/base.py:331-338 | the cascade loop yields the cascade specification, and no relation table keeps a match |
| `Topical.Delete` | synarchive/base.py:312-353 | the method's answer and new store are those of the delete specification; the post-deletion checks of lines 341-344 hold as assertions |
| `Topical.CreateThenRead` | synarchive/base.py:272-304 | a record created with an expandable identity reads back by its key, holding every field it was created with |
| `Topical.RoundTrip` | synarchive/base.py:272-353 | an entity created under a fresh key reads back as exactly the stored record, which minus key and created_at is its details; once deleted it reads back as nothing |
| `Topical.DeleteThenRead` | synarchive/base.py:312-353 | after a successful delete, reading the same key finds nothing |
| `Association.AccumulateSucceeds` | synarchive/base.py:415-423 | link accumulation succeeds exactly when each upstream subject holds at most one record with the key and each such record has a link mapping |
| `Association.AccumulateGrows` | synarchive/base.py:421-423 | the accumulated link keeps every field of the fresh link |
| `Association.AccumulateCollectsFrom` | synarchive/base.py:415-423 | every upstream record found under the key has a link mapping, and every field of it is in the accumulated link, so upstream links are contained in downstream ones |
| `Association.AccumulateKeepsSeed` | synarchive/base.py:410-423 | a field of the fresh link that no upstream link names keeps its fresh value |
| `Association.AccumulateUnmatched` | synarchive/base.py:415-423 | with no upstream record under the key, the link is the fresh link alone |
| `Association.CreateStoresLink` | synarchive/base.py:409-426 | an unambiguous create stores, under the key, the record's fields, the fresh identifier and every upstream link field; each upstream link is contained in the new link; when the identifier is not a key field, the link is not contained in the key |
| `Association.CreateWithoutAssociations` | synarchive/base.py:402-426 | with no upstream subjects, the stored link is exactly the record's identifier mapped to the fresh token |
| `Association.CreateReturnsDetails` | synarchive/base.py:409-426 | an associative entity is stored under its key with the accumulated link; under a new key, the record minus key, link and created_at is the details |
| `Association.UpstreamAfterCreate` | synarchive/base.py:409-426 | in a table with unique keys, the new record is afterwards the one upstream match for its key; keys stay unique; no other table changes |
| `Association.UpdateGuardsLink` | synarchive/base.py:437-439 | an update touching link or key fails and writes nothing, reporting link first |
| `Association.DeleteKeepsOthers` | synarchive/base.py:442-452 | a delete removes from its own table exactly the records sharing the deleted record's link, keeps the rest in place, and leaves tables outside the relations unchanged |
| `Association.DeleteClearsSoleDownstream` | synarchive/base.py:442-452 | deleting the one record under a key succeeds and leaves no record under a downstream key whose one record inherited the deleted identifier in its link, so that key reads back as nothing |
| `Association.DeleteThenRead` | synarchive/base.py:442-452 | in a table with unique keys, after a delete by key no record with that key is left and reading it finds nothing |
| `Association.Create` | synarchive/base.py:409-426 | the accumulation loop and the upsert give exactly the create specification's answer and new store |
| `Association.ReadAll` | synarchive/base.py:429-430 | the bulk read expands through link |
| `Association.Read` | synarchive/base.py:433-434 | the read expands through link |
| `Association.Update` | synarchive/base.py:437-439 | the method's answer and new store are those of the update specification |
| `Association.Delete` | synarchive/base.py:442-452 | the method's answer and new store are those of the link-driven delete specification |
| `Connection.ProjectKey` | synarchive/connection.py:50-51 | a project key names exactly the project id |
| `Connection.ParticipantKey` | synarchive/connection.py:100-101 | a participant key names exactly the participant id |
| `Connection.ExperimentKey` | synarchive/connection.py:152-153 | an experiment key names exactly the project and experiment ids |
| `Connection.RunKey` | synarchive/connection.py:202-203 | a run key names exactly the project, experiment and run ids |
| `Connection.PairKey` | synarchive/connection.py:357-365 | a registration or tag key names exactly the project and participant ids |
| `Connection.CreateProject` | synarchive/connection.py:57-63 | a project is created as the topical create of its generated key and details |
| `Connection.ReadProject` | synarchive/connection.py:66-68 | a project read finds the record under its generated key |
| `Connection.UpdateProject` | synarchive/connection.py:71-73 | a project update is the topical update under its generated key |
| `Connection.DeleteProject` | synarchive/connection.py:76-78 | a project delete is the cascading delete under its generated key |
| `Connection.ProjectRoundTrip` | synarchive/connection.py:57-78 | a project created under a fresh id reads back with its key and exactly its details; once deleted it reads back as nothing |
| `Connection.DeleteProjectClearsExperimentsAndRuns` | synarchive/connection.py:29-44 | deleting a project cascades into its experiments and runs, none of which reads back afterwards |
| `Connection.ParticipantCreateChecksId` | synarchive/connection.py:107-114 | creating a participant succeeds exactly when the details carry its own id, writing nothing otherwise; the stored record has the generated key and that id |
| `Connection.CreateParticipant` | synarchive/connection.py:107-114 | the method gives the participant create specification's answer and new store, checking the id first |
| `Connection.ReadParticipant` | synarchive/connection.py:117-119 | a participant read finds the record under its generated key |
| `Connection.UpdateParticipant` | synarchive/connection.py:122-124 | a participant update is the topical update under its generated key |
| `Connection.DeleteParticipant` | synarchive/connection.py:127-129 | a participant delete is the cascading delete under its generated key |
| `Connection.CreateExperiment` | synarchive/connection.py:159-165 | an experiment is created as the topical create of its generated key and details |
| `Connection.ReadExperiment` | synarchive/connection.py:168-170 | an experiment read finds the record under its generated key |
| `Connection.UpdateExperiment` | synarchive/connection.py:173-175 | an experiment update is the topical update under its generated key |
| `Connection.DeleteExperiment` | synarchive/connection.py:178-180 | an experiment delete is the cascading delete under its generated key |
| `Connection.DeleteExperimentClearsRuns` | synarchive/connection.py:140-146 | deleting an experiment leaves no record naming its expt_id in Run, Model, Validation or Prediction, under any project, and no run of that experiment id reads back |
| `Connection.CreateRun` | synarchive/connection.py:209-215 | a run is created as the topical create of its generated key and details |
| `Connection.ReadRun` | synarchive/connection.py:218-220 | a run read finds the record under its generated key |
| `Connection.UpdateRun` | synarchive/connection.py:223-225 | a run update is the topical update under its generated key |
| `Connection.DeleteRun` | synarchive/connection.py:228-230 | a run delete is the cascading delete under its generated key |
| `Connection.CrossLink` | synarchive/connection.py:264-285 | a successful cross-link has exactly the entries project and participant |
| `Connection.CrossLinkFindsBoth` | synarchive/connection.py:264-285 | cross-linking succeeds exactly when both the project and the participant are stored, and then attaches the stored records found under their keys |
| `Connection.CrossLinkSubjects` | synarchive/connection.py:264-285 | the method reads both records and computes exactly the cross-link |
| `Connection.RegistrationReadSucceeds` | synarchive/connection.py:311-317 | a stored registration whose link names its registration_id reads back whenever its project and participant are both stored, carrying those stored records |
| `Connection.RegistrationReadCrossLinks` | synarchive/connection.py:311-317 | a registration read back carries its key and the stored project and participant it names |
| `Connection.AttachKeepsKey` | synarchive/connection.py:314-316 | attaching the cross-linked pair keeps the key and adds the pair |
| `Connection.RegistrationReadNeedsBoth` | synarchive/connection.py:311-317 | a stored registration whose project or participant is missing cannot be read |
| `Connection.KeyArgs` | synarchive/connection.py:304-305 | a registration key spreads into exactly a project id and a participant id, forming that key again |
| `Connection.AttachIsAttached` | synarchive/connection.py:306 | attaching a pair keeps the relations and every other field and adds project and participant |
| `Connection.Linked` | synarchive/connection.py:303-307 | a cross-linked registration is the registration with project and participant attached |
| `Connection.GatherValues` | synarchive/connection.py:300-308 | the bulk cross-link succeeds exactly when every registration's does, and then yields their values in order |
| `Connection.CrossLinkAllKeepsOrder` | synarchive/connection.py:300-308 | the bulk read keeps the registrations and their order, each attached to its project and participant |
| `Connection.LinkRegistration` | synarchive/connection.py:304-306 | one loop step computes exactly the registration's cross-link outcome |
| `Connection.LinkRegistrations` | synarchive/connection.py:302-308 | the loop computes exactly the bulk cross-link, stopping at the first failure |
| `Connection.ReadAllRegistrations` | synarchive/connection.py:300-308 | the registration bulk read is the filtered read through link followed by the bulk cross-link |
| `Connection.CreateRegistration` | synarchive/connection.py:291-297 | a registration is created as the associative create of its generated key and details |
| `Connection.ReadRegistration` | synarchive/connection.py:311-317 | the method computes exactly the registration read specification |
| `Connection.UpdateRegistration` | synarchive/connection.py:320-322 | a registration update is the associative update under its generated key |
| `Connection.DeleteRegistration` | synarchive/connection.py:325-327 | a registration delete is the link-driven delete under its generated key |
| `Connection.DeleteRegistrationKeepsProjects` | synarchive/connection.py:247-254 | the hidden Project and Participant relations are inert: while those records carry no link, deleting a registration leaves both tables as they were |
| `Connection.CreateTag` | synarchive/connection.py:371-377 | a tag is created as the associative create of its generated key and details |
| `Connection.ReadTag` | synarchive/connection.py:380-382 | a tag read finds the record under its generated key |
| `Connection.UpdateTag` | synarchive/connection.py:385-387 | a tag update is the associative update under its generated key |
| `Connection.DeleteTag` | synarchive/connection.py:390-392 | a tag delete is the link-driven delete under its generated key |
| `Connection.TagInheritsRegistrationLink` | synarchive/connection.py:344-351 | a tag's link is its own tag_id merged with the link of the one registration of the same project and participant |
| `Training.AlignmentKey` | synarchive/training.py:42-46 | an alignment key names exactly the project and participant ids, as the registration and tag keys do |
| `Training.ModelKey` | synarchive/training.py:95-100 | a model key names exactly the project, experiment and run ids, as the run key does |
| `Training.CreateAlignment` | synarchive/training.py:52-58 | an alignment is created as the associative create of its generated key and details |
| `Training.ReadAlignment` | synarchive/training.py:61-63 | an alignment reads back under its key with no relations |
| `Training.UpdateAlignment` | synarchive/training.py:66-68 | an alignment update is the associative update under its generated key |
| `Training.DeleteAlignment` | synarchive/training.py:71-73 | an alignment delete is the link-driven delete under its generated key |
| `Training.AlignmentLinkMergesUpstream` | synarchive/training.py:29-36 | with one registration and one tag under the key, the alignment's link is its alignment_id merged with the registration's link, then the tag's |
| `Training.ChainRegistration` | synarchive/connection.py:291-297 | a new registration is the one registration under its key, its link is its registration_id alone, keys stay unique and no other table changes |
| `Training.ChainTag` | synarchive/connection.py:371-377 | a new tag is the one tag under its key, its link extends the registration's link, and registrations are untouched |
| `Training.ChainAlignment` | synarchive/training.py:52-58 | with one registration and one tag under the key, a new alignment's link is its alignment_id merged with the registration's link, then the tag's |
| `Training.DeleteRegistrationClearsChain` | tests/base/test_base_AssociationRecords.py:218-236 | after registration, tag and alignment are created for one project and participant, deleting the registration succeeds and the registration, the tag and the alignment all read back as nothing |
| `Training.AlignmentChain` | synarchive/training.py:52-58 | registration, then tag, then alignment for one project and participant give the alignment the link naming registration_id, tag_id and alignment_id, each with its own token |
| `Training.CreateModel` | synarchive/training.py:106-112 | a model is created as the associative create of its generated key and details |
| `Training.ReadModel` | synarchive/training.py:114-116 | a model read finds the record under its generated key |
| `Training.UpdateModel` | synarchive/training.py:118-120 | a model update is the associative update under its generated key |
| `Training.DeleteModel` | synarchive/training.py:122-124 | a model delete is the link-driven delete under its generated key |
| `Training.ModelLinkIsOwn` | synarchive/training.py:83-89 | a model has no upstream subjects, so its link is exactly its own model_id with the fresh token |
| `Training.DeleteRunClearsModels` | synarchive/connection.py:190-196 | deleting a run cascades into Model by run_id: no model of that run id, in any project or experiment, reads back |
| `Evaluation.MLFKey` | synarchive/evaluation.py:46-47 | an MLFlow key names exactly the project and the name |
| `Evaluation.EvaluationKey` | synarchive/evaluation.py:102-116 | a validation or prediction key names exactly participant, collaboration, project, experiment and run ids |
| `Evaluation.CreateMLF` | synarchive/evaluation.py:53-59 | a mapping is created as the topical create of its generated key and details |
| `Evaluation.ReadMLF` | synarchive/evaluation.py:62-64 | a mapping reads back under its key with no relations |
| `Evaluation.UpdateMLF` | synarchive/evaluation.py:67-69 | a mapping update is the topical update under its generated key |
| `Evaluation.DeleteMLF` | synarchive/evaluation.py:72-74 | a mapping delete is the topical delete under its generated key |
| `Evaluation.DeleteMLFRemovesOnlyIt` | synarchive/evaluation.py:35-40 | with no relations, deleting a mapping succeeds exactly when it exists, returns it with no relations, removes it and changes no other table |
| `Evaluation.CreateValidation` | synarchive/evaluation.py:123-143 | a validation is created as the associative create of its generated key and details |
| `Evaluation.ReadValidation` | synarchive/evaluation.py:146-161 | a validation reads back under its key with no relations |
| `Evaluation.UpdateValidation` | synarchive/evaluation.py:164-180 | a validation update is the associative update under its generated key |
| `Evaluation.DeleteValidation` | synarchive/evaluation.py:183-198 | a validation delete is the link-driven delete under its generated key |
| `Evaluation.CreatePrediction` | synarchive/evaluation.py:241-261 | a prediction is created as the associative create of its generated key and details |
| `Evaluation.ReadPrediction` | synarchive/evaluation.py:264-279 | a prediction reads back under its key with no relations |
| `Evaluation.UpdatePrediction` | synarchive/evaluation.py:282-298 | a prediction update is the associative update under its generated key |
| `Evaluation.DeletePrediction` | synarchive/evaluation.py:301-316 | a prediction delete is the link-driven delete under its generated key |
| `Evaluation.TopicalCreateKeepsNoCollab` | synarchive/base.py:272-273 | a relational create keeps a table free of keys naming a collab_id when it writes another table or its own key names no collab_id |
| `Evaluation.CreateKeepsNoCollab` | synarchive/base.py:409-426 | an associative create keeps a table free of keys naming a collab_id when it writes another table (so validation and prediction creates keep the model, registration and tag tables free) or its own key names no collab_id |
| `Evaluation.TopicalUpdateKeepsNoCollab` | synarchive/base.py:307-309 | a relational update never rewrites a key, so it keeps every table free of keys naming a collab_id |
| `Evaluation.UpdateKeepsNoCollab` | synarchive/base.py:437-439 | an associative update never rewrites a key, so it keeps every table free of keys naming a collab_id |
| `Evaluation.TopicalDeleteKeepsNoCollab` | synarchive/base.py:312-353 | a cascading delete only removes records, whatever subjects it reaches, so it keeps every table free of keys naming a collab_id |
| `Evaluation.DeleteKeepsNoCollab` | synarchive/base.py:442-452 | an associative delete is a cascading delete by link, so it keeps every table free of keys naming a collab_id |
| `Evaluation.EvaluationLinkIsOwn` | synarchive/evaluation.py:89-96 | with no upstream key naming a collab_id, a validation or prediction finds no upstream record, its create succeeds and its link is its own identifier alone |
| `Evaluation.ValidationRoundTrip` | synarchive/evaluation.py:123-161 | a validation under a fresh key gets the link {val_id: token}, keeps exactly its details, and reads back exactly, with no relations |
| `Evaluation.PredictionRoundTrip` | synarchive/evaluation.py:241-316 | a prediction under a fresh key gets the link {pred_id: token}, keeps exactly its details, reads back exactly, and after its delete reads back as nothing |
| `Evaluation.DeleteModelKeepsEvaluations` | synarchive/training.py:83-89 | while no validation or prediction link names a model_id (their own links never do), deleting a model leaves both tables exactly as they were |
| `Evaluation.DeleteKeepsUnlinked` | synarchive/base.py:331-338 | a cascading delete by link leaves a related table unchanged when none of its links names the identifier |

## Left out

- The file-backed store is not part of this model: TinyDB, JSON serialisation, caching middleware, the date serialisers and configuration loading. The store is a value `map<string, seq<Doc>>` held by a `Database` object.
- The uuid1 link generator and the UTC clock are not part of this model. Each create takes the fresh token and the clock reading (in microseconds) as parameters.
- `jsonschema` validation of details is not part of this model. Details are taken as already valid.
- TinyDB's document ids are not modelled. The post-deletion checks by document id (`base.py:343`, `base.py:350`) are stated through the documents' contents. The checks of `base.py:341-344` and `base.py:351` appear in the delete method as assertions; the check of `base.py:350` is stated by the lemma Topical.DeleteRemovesRecord.
- Each table write is one atomic step, as a TinyDB transaction is. A delete across several tables is not atomic in the source, and concurrent callers are not modelled.
- The source adds `created_at`, `link` and `relations` by mutating the caller's dictionaries in place. The model builds new values, so aliasing of the caller's dicts is not captured.
- Topical.Expand: the source writes `relations` into the returned record itself. The model returns the record and its relations side by side, so a stored field named `relations` is not shown being overwritten.
- Association.Accumulate: an upstream record whose `link` is not a mapping is a failure in the model. In the source, `link.update` raises for most such values but accepts an empty list or string and a sequence of key–value pairs, merging those pairs; that difference is not modelled.
- Connection.CrossLinkSubjects: only the concise form that every caller uses is modelled. In that form, `relations` is dropped from the cross-linked project and participant.
- Connection.KeyArgs: the model accepts only a registration key with exactly project_id and participant_id and reports every other key as one failure. The source's keyword spreading also accepts a key that carries an extra `concise` field, and then cross-links with `relations` kept; that case is not modelled.
- Evaluation.EvaluationLinkIsOwn: stated under the hypothesis that no upstream table has a key naming collab_id. That hypothesis holds of the empty store and is kept by every relational and associative operation on the entities. Creates keep it for a table they do not write, and for their own table when their key names no collab_id. No model, registration or tag key names one (TopicalCreateKeepsNoCollab, CreateKeepsNoCollab). Updates and deletes keep it for every table (TopicalUpdateKeepsNoCollab, UpdateKeepsNoCollab, TopicalDeleteKeepsNoCollab, DeleteKeepsNoCollab). Writes made directly to the store are not ruled out.
- Evaluation.DeleteModelKeepsEvaluations: stated under the hypothesis that no validation or prediction link names a model_id. Their creates give them their own identifier alone (EvaluationLinkIsOwn), but writes made directly to the store are not ruled out.
- Association.DeleteThenRead: stated for tables whose keys are unique. Every create keeps them so (Records.CreateKeepsKeysUnique).
- Connection.DeleteProjectClearsExperimentsAndRuns: the project cascade is stated for experiments and runs. For all eight relation subjects it is stated generically by Topical.DeleteCascadesExactly and Topical.DeleteLeavesNoRelated.
