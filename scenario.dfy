/** A client of the handlers: the flow the front end drives, on a new store. */
module Scenario {
  import opened Http
  import opened Projects
  import opened VideoRoutes

  /** Create a project from `text`, start its video, then list the projects:
      the listing shows that one project, now processing. */
  method CreateThenGenerate(text: string, id: string, now: real, jobId: string)
    returns (created: Response<Project>, generated: Response<GenerationJob>,
             listed: Response<seq<Project>>)
    requires text != "" && id != ""
    ensures created.Success() && created.payload.id == id
    ensures created.payload.status == DRAFT && created.payload.text == text
    ensures created.payload.dialect == None && created.payload.voice == None
    ensures generated == Ok(GenerationJob(jobId, ESTIMATED_TIME))
    ensures listed == Ok([created.payload.(status := PROCESSING)])
  {
    var store := new ProjectStore();
    created := store.CreateProject(map["text" := text], id, now);
    assert store.projectsDb == map[id := created.payload] && store.order == [id];
    generated := store.GenerateVideo(map["project_id" := id], jobId);
    assert store.projectsDb == map[id := created.payload.(status := PROCESSING)];
    listed := store.GetProjects();
    assert Listing(store.projectsDb, store.order) == [store.projectsDb[id]];
  }
}
