# Arabic video maker: project store and route handlers

This project models the Flask blueprint `arabic-video-maker-api/src/routes/video.py`. It is the
backend of a tool that turns Arabic text into a narrated video. A client creates a *project*
from a text, with an optional dialect and voice. It can preview the speech. It then asks for
the video to be generated, and polls a job status. The backend also serves two fixed catalogs:
voices and dialects.

The part with state is `projects_db`, a process-wide dictionary from project id to project
record. Two handlers change it:

- `create_project` validates the body and inserts a fresh record with status `"draft"`;
- `generate_video` validates the body, answers 404 for an unknown id, and sets the record's
  status to `"processing"` in place.

`get_projects` lists the stored records. The other handlers never read or write the store.

Modules:

- `Http` (`http.dfy`): the request body is a JSON object of string fields (`Body`). `Field`
  models `data.get(key)`. `Present` models the negation of `not data or not data.get(key)`: the
  key is there and its value is not the empty string. A request without a JSON body is the
  empty object. `Response` is the envelope: `Ok` (200, `success: true`), `BadRequest` (400)
  and `NotFound` (404), each with `success: false` and an `error` message.
- `Projects` (`projects.dfy`): the `Project` record and the store invariant `WellFormed`.
  `order` is the dictionary's insertion order, which `list(projects_db.values())` follows. The
  invariant says that each key is listed once, each record is stored under its own id, and
  each status is `"draft"` or `"processing"`. The module also holds the listing function
  `Listing`, the in-place status update `MarkProcessing`, and the lemmas about them.
- `VideoRoutes` (`video_routes.dfy`): the class `ProjectStore` stands for `projects_db`. Its
  fields are the map and its insertion order. Its methods are the handlers that touch the
  store. `preview_tts` and `get_video_status` are pure functions.
- `Catalogs` (`catalogs.dfy`): the constant voice and dialect catalogs.
- `Scenario` (`scenario.dfy`): a client that creates a project, starts its video and lists the
  store.

Nondeterministic inputs become parameters of the handler that uses them. These are the
`uuid.uuid4()` strings (project id, job id, audio file name), the `time.time()` timestamp of a
new project, and the `random.randint(10, 100)` progress of a status poll. `CreateProject`
requires that its fresh id is not yet a key of the store. A real uuid4 gives that with
overwhelming probability.

`video.py` has no `"completed"` project status, no stored `video_url`, no calls to speech or
video providers and no mapping of provider error codes. The model has none of these either:

- `generate_video` only sets `"processing"` and returns a job id with an estimate of 30
  seconds;
- `get_video_status` answers from the progress value;
- `preview_tts` checks only the text.

## Model

| member | source | states |
|---|---|---|
| Http.Present | arabic-video-maker-api/src/routes/video.py:23 | the key is in the body and its value is not the empty string, which is the negation of `not data or not data.get(key)`: `data.get(key)` is a value and that value is not empty |
| Http.Field | arabic-video-maker-api/src/routes/video.py:32-34 | `data.get(key)` is a value exactly when the key is in the body, and then it is that key's value; otherwise it is None |
| Http.Response.Code | arabic-video-maker-api/src/routes/video.py:23-27 | the status code is 200 exactly for a successful envelope, 400 exactly for a bad request and 404 exactly for an unknown project |
| Projects.Listing | arabic-video-maker-api/src/routes/video.py:15 | the listing has one entry per position of the insertion order, and each entry is the record stored under that key |
| Projects.ListingMatchesStore | arabic-video-maker-api/src/routes/video.py:13-16 | under the store invariant, the listing has as many entries as the store has keys, and its multiset of entries is exactly the store's values (each record once) |
| Projects.ListingInsert | arabic-video-maker-api/src/routes/video.py:39 | inserting a record under a fresh key appends exactly that record to the listing, and every earlier entry stays where it was |
| Projects.MarkProcessing | arabic-video-maker-api/src/routes/video.py:85 | the set of keys is unchanged; the marked record has status "processing" and every other field as before; every other record is unchanged |
| Projects.MarkProcessingIdempotent | arabic-video-maker-api/src/routes/video.py:85 | marking a record twice gives the same store as marking it once |
| Projects.ListingMark | arabic-video-maker-api/src/routes/video.py:85 | after marking, the listing has the same length, the entry of the marked id differs only in status "processing", and every other entry is unchanged |
| Projects.InsertPreservesWellFormed | arabic-video-maker-api/src/routes/video.py:29-39 | inserting a record with a fresh id and a known status keeps the invariant (distinct insertion order, key equals id, status draft or processing) and never removes or regresses a record |
| Projects.MarkPreservesWellFormed | arabic-video-maker-api/src/routes/video.py:85 | marking a stored record as processing keeps the invariant and never moves any record from processing back to draft |
| VideoRoutes.ProjectStore.constructor | arabic-video-maker-api/src/routes/video.py:8 | the store starts empty and satisfies the invariant |
| VideoRoutes.ProjectStore.GetProjects | arabic-video-maker-api/src/routes/video.py:11-16 | always succeeds, with one entry per stored key, and the multiset of entries equals the stored values; it does not change the store |
| VideoRoutes.ProjectStore.CreateProject | arabic-video-maker-api/src/routes/video.py:19-44 | absent or empty text gives 400 with "النص مطلوب" and leaves the store unchanged; otherwise the store gains exactly the fresh key, mapped to a draft record whose text, dialect and voice are copied from the body, and that record is returned; earlier entries are unchanged and the listing gains that record at its end; the invariant holds and no status regresses |
| VideoRoutes.ProjectStore.GenerateVideo | arabic-video-maker-api/src/routes/video.py:67-93 | absent or empty project_id gives 400, checked before the lookup; an unknown id gives 404; in both cases the store is unchanged; a known id gives success with the job id and an estimate of 30 seconds, and the store changes only in that record's status, now "processing"; the invariant holds and no status regresses |
| VideoRoutes.PreviewTts | arabic-video-maker-api/src/routes/video.py:47-64 | it succeeds exactly when the text is present and not empty, and otherwise gives 400 with "النص مطلوب"; on success the audio URL is "/api/audio/preview_" followed by the audio id and ".wav", and the id can be read back from the URL; the duration in tenths of a second equals the text's length |
| VideoRoutes.GetVideoStatus | arabic-video-maker-api/src/routes/video.py:96-114 | for a progress in 10..100 it always succeeds and echoes the progress; the status is "completed" exactly when progress >= 100 and "processing" otherwise; a video URL is present exactly when completed, and it is "/api/videos/", the job id and ".mp4" |
| Catalogs.GetDialects | arabic-video-maker-api/src/routes/video.py:160-193 | five dialects with pairwise distinct codes, each with a non-empty name and description |
| Catalogs.GetVoices | arabic-video-maker-api/src/routes/video.py:117-157 | four voices with pairwise distinct ids; each sample URL is "/api/samples/", the voice id and ".wav"; each gender is male or female; each voice's dialect is a code of the dialect catalog |
| Scenario.CreateThenGenerate | arabic-video-maker-api/src/routes/video.py:19-93 | on a new store, creating from non-empty text gives a draft with that text and id and no dialect or voice; generating it succeeds with a 30-second estimate; the listing is then exactly that project with status "processing" |

## Left out

- `arabic-video-maker/src/App.jsx`, the React front end, is not part of this model. It holds
  UI state, rendering, `fetch` calls and `alert`.
- Flask plumbing is not modelled: `Blueprint`, routing, `request.get_json` and `jsonify`. The
  `(body, status)` tuples become the `Response` datatype and its `Code`.
- Request bodies are JSON objects whose values are strings. Non-string field values are left
  out. In Python, `null`, `0`, `0.0`, `false`, `[]` and `{}` are falsy, so such a `text` or
  `project_id` gets the same 400 as an absent one; other non-strings are truthy.
- A JSON body that is not an object and is falsy (`null`, `[]`, `0`, `""`, `false`) stops at
  `not data` and gets the 400 envelope, which is what the model gives for the empty object. A
  truthy non-object body reaches `.get`, raises `AttributeError` and gets a 500; that case is
  left out. Newer Flask versions also make `request.get_json()` fail with 400 or 415, without
  the envelope, when the content type is not JSON; that is left out too.
- `uuid.uuid4()`, `time.time()` and `random.randint` are parameters, because they are
  nondeterministic. The uniqueness of a uuid4 is the precondition `freshId !in projectsDb`.
  Job ids and audio ids are not stored, so they carry no such condition.
- `time.sleep(1)` in `preview_tts` is left out. It is a delay with no logical effect.
- `PreviewTts`: the duration `len(text) * 0.1` is a float. It is modelled as an integer count
  of tenths of a second, equal to the text's length.
- `created_at` is an opaque `real` supplied by the caller. Python's float arithmetic and
  `jsonify`'s number formatting are not modelled.
- Records are values. In the source, the dict returned by `create_project` is the same object
  that is stored. Each response is serialised at once, so this aliasing is not observable
  through the handlers.
- Concurrent requests on the shared global dictionary are not modelled. The handlers run one
  at a time; with threads, the last writer wins.
