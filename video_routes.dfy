/** The route handlers of the video blueprint.

    `projects_db`, the module-level dictionary the handlers share, is the
    object `ProjectStore`; the handlers that read or write it are its members.
    The other handlers never touch it and are plain functions. The values the
    handlers draw from `uuid.uuid4()`, `time.time()` and `random.randint`
    are parameters. */
module VideoRoutes {
  import opened Http
  import opened Projects

  const TEXT_REQUIRED: string := "النص مطلوب"
  const PROJECT_ID_REQUIRED: string := "معرف المشروع مطلوب"
  const PROJECT_NOT_FOUND: string := "المشروع غير موجود"

  /** Seconds `generate_video` announces for a job. */
  const ESTIMATED_TIME: int := 30

  const AUDIO_PREFIX: string := "/api/audio/preview_"
  const AUDIO_SUFFIX: string := ".wav"
  const VIDEO_PREFIX: string := "/api/videos/"
  const VIDEO_SUFFIX: string := ".mp4"
  const COMPLETED: string := "completed"

  /** Payload of a successful `POST /video/generate`. */
  datatype GenerationJob = GenerationJob(jobId: string, estimatedTime: int)

  /** Payload of a successful `POST /tts/preview`; the duration is counted in
      tenths of a second. */
  datatype Preview = Preview(audioUrl: string, durationTenths: int)

  /** Payload of `GET /video/status/<job_id>`. */
  datatype JobStatus = JobStatus(status: string, progress: int, videoUrl: Option<string>)

  predicate EndsWith(s: string, suffix: string)
  {
    |suffix| <= |s| && s[|s| - |suffix|..] == suffix
  }

  /** `s` is `prefix + middle + suffix`, read back from `s`. */
  predicate Frames(s: string, prefix: string, middle: string, suffix: string)
  {
    prefix <= s && EndsWith(s, suffix) && |prefix| + |suffix| <= |s| &&
    s[|prefix|..|s| - |suffix|] == middle
  }

  /** `POST /tts/preview`. `audioId` is the `uuid.uuid4()` of the file name. */
  function PreviewTts(body: Body, audioId: string): (r: Response<Preview>)
    ensures r.Success() <==> Present(body, "text")
    ensures !r.Success() ==> r == BadRequest(TEXT_REQUIRED)
    ensures r.Success() ==>
      && Frames(r.payload.audioUrl, AUDIO_PREFIX, audioId, AUDIO_SUFFIX)
      && r.payload.durationTenths == |body["text"]|
  {
    if !Present(body, "text") then BadRequest(TEXT_REQUIRED)
    else
      var url := AUDIO_PREFIX + audioId + AUDIO_SUFFIX;
      assert url[|AUDIO_PREFIX|..|url| - |AUDIO_SUFFIX|] == audioId;
      Ok(Preview(url, |body["text"]|))
  }

  /** `GET /video/status/<job_id>`, with the `random.randint(10, 100)` draw
      passed in as `progress`. */
  function GetVideoStatus(jobId: string, progress: int): (r: Response<JobStatus>)
    requires 10 <= progress <= 100
    ensures r.Success() && r.payload.progress == progress
    ensures r.payload.status == COMPLETED <==> progress >= 100
    ensures r.payload.status != COMPLETED ==> r.payload.status == PROCESSING
    ensures r.payload.videoUrl.Some? <==> r.payload.status == COMPLETED
    ensures r.payload.videoUrl.Some? ==>
      Frames(r.payload.videoUrl.value, VIDEO_PREFIX, jobId, VIDEO_SUFFIX)
  {
    if progress >= 100 then
      var url := VIDEO_PREFIX + jobId + VIDEO_SUFFIX;
      assert url[|VIDEO_PREFIX|..|url| - |VIDEO_SUFFIX|] == jobId;
      Ok(JobStatus(COMPLETED, progress, Some(url)))
    else
      Ok(JobStatus(PROCESSING, progress, None))
  }

  /** The project dictionary. `order` is its insertion order, which
      `list(projects_db.values())` follows. */
  class ProjectStore {
    var projectsDb: map<string, Project>
    var order: seq<string>

    ghost predicate Valid()
      reads this
    {
      WellFormed(projectsDb, order)
    }

    /** `projects_db = {}`. */
    constructor ()
      ensures Valid()
      ensures projectsDb == map[] && order == []
    {
      projectsDb := map[];
      order := [];
    }

    /** `GET /projects`: every stored record once, in insertion order. */
    function GetProjects(): (r: Response<seq<Project>>)
      reads this
      requires Valid()
      ensures r.Success()
      ensures |r.payload| == |projectsDb|
      ensures multiset(r.payload) == multiset(projectsDb.Values)
    {
      ListingMatchesStore(projectsDb, order);
      Ok(Listing(projectsDb, order))
    }

    /** `POST /projects`. `freshId` and `now` are the `uuid.uuid4()` and
        `time.time()` of the call. */
    method CreateProject(body: Body, freshId: string, now: real) returns (r: Response<Project>)
      requires Valid()
      requires freshId !in projectsDb
      modifies this
      ensures Valid()
      ensures NeverRegresses(old(projectsDb), projectsDb)
      ensures r.Success() <==> Present(body, "text")
      ensures !Present(body, "text") ==>
        r == BadRequest(TEXT_REQUIRED) && projectsDb == old(projectsDb) && order == old(order)
      ensures Present(body, "text") ==>
        && r.payload == Project(freshId, body["text"], Field(body, "dialect"),
                                Field(body, "voice"), DRAFT, now)
        && projectsDb == old(projectsDb)[freshId := r.payload]
        && projectsDb.Keys == old(projectsDb).Keys + {freshId}
        && order == old(order) + [freshId]
        && GetProjects().payload == old(GetProjects().payload) + [r.payload]
    {
      if !Present(body, "text") {
        return BadRequest(TEXT_REQUIRED);
      }
      var project := Project(freshId, body["text"], Field(body, "dialect"),
                             Field(body, "voice"), DRAFT, now);
      InsertPreservesWellFormed(projectsDb, order, project);
      ListingInsert(projectsDb, order, project);
      projectsDb := projectsDb[freshId := project];
      order := order + [freshId];
      r := Ok(project);
    }

    /** `POST /video/generate`. `jobId` is the `uuid.uuid4()` of the call. */
    method GenerateVideo(body: Body, jobId: string) returns (r: Response<GenerationJob>)
      requires Valid()
      modifies this
      ensures Valid()
      ensures NeverRegresses(old(projectsDb), projectsDb)
      ensures order == old(order)
      ensures !Present(body, "project_id") ==>
        r == BadRequest(PROJECT_ID_REQUIRED) && projectsDb == old(projectsDb)
      ensures Present(body, "project_id") && body["project_id"] !in old(projectsDb) ==>
        r == NotFound(PROJECT_NOT_FOUND) && projectsDb == old(projectsDb)
      ensures Present(body, "project_id") && body["project_id"] in old(projectsDb) ==>
        var id := body["project_id"];
        && r == Ok(GenerationJob(jobId, ESTIMATED_TIME))
        && projectsDb == MarkProcessing(old(projectsDb), id)
        && projectsDb.Keys == old(projectsDb).Keys
        && projectsDb[id].status == PROCESSING
        && SameButStatus(old(projectsDb)[id], projectsDb[id])
        && (forall k :: k in old(projectsDb) && k != id ==> projectsDb[k] == old(projectsDb)[k])
    {
      if !Present(body, "project_id") {
        return BadRequest(PROJECT_ID_REQUIRED);
      }
      var id := body["project_id"];
      if id !in projectsDb {
        return NotFound(PROJECT_NOT_FOUND);
      }
      MarkPreservesWellFormed(projectsDb, order, id);
      projectsDb := projectsDb[id := projectsDb[id].(status := PROCESSING)];
      r := Ok(GenerationJob(jobId, ESTIMATED_TIME));
    }
  }
}
