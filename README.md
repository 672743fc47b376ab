# AI face blur web service — a Dafny model of its core

The service takes a video upload, creates an analysis job for it, and runs face detection on the extracted frames in a
background task. It logs one bbox list per frame and reports progress, with a preview image, while the job runs. On
request it then renders a blurred copy in a second background task. The page script lets the user pick a file and look
through the detected faces. It also lets them rename a face, toggle its blur flag, and download the result.

This project models:

- **Upload validation** (`upload.dfy`, module `UploadValidation`). The ordered chain of the upload route: a missing
  file part, then an empty file name, then the extension whitelist. The extension is the lowered text after the last
  dot, or the whole name when there is no dot.
- **Job lifecycle** (`lifecycle.dfy`, module `Lifecycle`). The statuses a job passes through:
  - `pending` on creation;
  - `running`, then `completed` or `failed`, during analysis;
  - `rendering`, then `done` or `failed`, during export.
  The export route admits a job only while it is `completed`.
- **The detection loop** (`face.dfy`, module `FaceDetection`):
  - the corner-to-`{x, y, w, h, id}` conversion;
  - the floor percentage;
  - the throttle that decides on which frames the progress is committed and the preview written.
  The function `Run` describes the whole loop over frames 1..n, including the `ZeroDivisionError`s it can raise.
- **The backend** (`backend.dfy`, module `Backend`). A class `Store` stands for:
  - the `video`, `job` and `detection_log` tables;
  - the preview files;
  - the background tasks the routes start.

  Its methods are the upload, job-creation, status and export routes, and the bodies of the two background tasks. The
  detection loop is a `while` loop proved against `Run`.
- **The page script's pure formatters** (`format.dfy`, module `Format`): `formatTime` and `formatSize`.
- **The page script's session state** (`frontend.dfy`, module `Frontend`). A class `Session` holds the module-level
  variables, the rendered object list, the details panel and the status line. Its methods are the handlers for file
  selection, upload, object selection, detail edits, export and download.
- **Shared helpers** (`common.dfy`, module `Common`): Option/Result, ASCII lowering, decimal rendering of ids, and
  truncation toward zero.

Two properties of the detection loop are worth stating in prose:

- **A frame rate below 1 crashes the loop.** The throttle tests `current_per > last_per or (idx - 1) % int(fps) == 0`.
  The `or` short-circuits, so the modulo — and its division by `int(fps)` — is reached only on frames whose floor
  percentage did not rise.
  - `FaceDetection.ShortVideoCommitsEveryFrame`: in exact arithmetic, a video of at most 100 frames commits on every
    frame and never raises, whatever its fps. The source divides in double precision, and there the statement fails
    at 100 frames: `(29/100)*100` is 28.999999999999996, so frame 29 does not raise the floor (nor does frame 57).
    With `int(fps) == 0` such a video raises at frame 29, and with `int(fps) == 30` frame 29 is not committed. Up to
    99 frames, consecutive exact percentages differ by more than 1.01, which the rounding error of the division
    cannot close, so the exact statement carries over there.
  - `FaceDetection.ZeroFpsRaisesAtFirstFrameOfLongVideo`: with `int(fps) == 0`, a video of more than 100 frames fails
    at frame 1, right after that frame's log row.

  `RunAnalysis` then marks the job `failed` with progress 0. The model keeps this behaviour.
- **A zero frame count crashes the loop.** `total_frames == 0` raises at the first frame. `Decide` models this as
  `Raise(ZeroTotalFrames)`. No stored video reaches the loop that way, though: `get_video_metadata` (utils.py:10)
  turns a zero frame count into None, which fails the upload's NOT NULL insert. The model keeps the case because
  `Run` is stated for every frame count.

The code as shown also lacks one setting. Both the detection loop (face_services.py:19) and the status route for a
running job (job_routes.py:27) read `PREVIEWS_FOLDER`, which the `Config` class of config.py does not define. The
members named `…AsWritten` model what then happens, and "## Findings" records it. The rest of the model assumes the
setting is present.

## Model

| member | source | states |
|---|---|---|
| UploadValidation.LastSegment | backend/app/routes/video_routes.py:29 | `rsplit(".", -1)[-1]`: the result holds no dot, is a suffix of the name, and is preceded by a dot when shorter than the name; with no dot it is the whole name |
| UploadValidation.LastSegmentUnique | backend/app/routes/video_routes.py:29 | those three facts single out the last segment |
| UploadValidation.Extension | backend/app/routes/video_routes.py:29 | the extension has no dot; without a dot in the name it is the lowered name, otherwise the lowered text after the last dot |
| UploadValidation.Validate | backend/app/routes/video_routes.py:16-34 | an accepted upload's extension is one of the whitelist mp4, avi, mov |
| UploadValidation.ValidateCases | backend/app/routes/video_routes.py:16-34 | a missing part gives "No file uploaded", exactly an empty name gives "Empty filename", a non-whitelisted extension gives "Unsupported file type", in that order; a name passes iff it is non-empty with a whitelisted extension, which is returned |
| UploadValidation.AcceptedIffNamedAsVideo | backend/app/routes/video_routes.py:28-34 | a non-empty name passes iff its lowered form is mp4/avi/mov or ends in "." followed by one of them (an independent reading of the whitelist, both directions) |
| UploadValidation.DotlessNamePasses | backend/app/routes/video_routes.py:29-31 | "MOV" passes as "mov" although it has no dot |
| UploadValidation.OnlyLastSegmentCounts | backend/app/routes/video_routes.py:29-34 | "clip.mp4.txt" is refused: only the text after the last dot counts |
| UploadValidation.PlainMp4Accepted | backend/app/routes/video_routes.py:28-31 | "clip.mp4" passes with extension "mp4" |
| Common.Lower | backend/app/routes/video_routes.py:29 | `.lower()` keeps the length, lowers A-Z and keeps every other character |
| Common.Trunc | backend/app/services/face_services.py:38-40 | Python `int()` of a float truncates toward zero |
| Common.ParseNatToString | backend/app/routes/job_routes.py:28 | the decimal rendering of an id reads back as that id |
| Lifecycle.Name | backend/app/models.py:25 | the stored status string equals "running" exactly for running and "completed" exactly for completed, so the routes' string tests are status tests |
| Lifecycle.NameInjective | backend/app/routes/job_routes.py:26 | distinct statuses are stored as distinct strings, so the `== "running"` test singles out running |
| Lifecycle.AfterAnalysis | backend/app/services/video_services.py:32-38 | the analysis task ends completed iff it succeeds, failed otherwise |
| Lifecycle.AfterExport | backend/app/services/video_services.py:65-71 | the export task ends done iff it succeeds, failed otherwise |
| Lifecycle.ExportAttempt | backend/app/routes/job_routes.py:46-51 | a request against a job that is not completed leaves its status; an admitted one ends in done or failed |
| Lifecycle.TerminalAbsorbs | backend/app/services/video_services.py:32-38 | from done or failed, any number of export requests admits none and leaves the status as it is |
| Lifecycle.ExportedAtMostOnce | backend/app/routes/job_routes.py:46-51 | any sequence of export requests starts at most one export task, and exactly one iff the job was completed and asked at least once |
| FaceDetection.ToBBox | backend/app/services/face_services.py:36-41 | x, y, the width x2 - x1, the height y2 - y1 and the id are each Python `int()` of their float: the whole number toward zero less than one away |
| FaceDetection.IntOfUnique | backend/app/services/face_services.py:38-40 | `int()` of a float has exactly one value |
| FaceDetection.FrameBoxes | backend/app/services/face_services.py:27-41 | no boxes when the detector found none (the tracker is not asked); otherwise one converted box per tracker row, in order |
| FaceDetection.ToBBoxKeepsCorners | backend/app/services/face_services.py:36-41 | for whole-pixel corners the stored box is x1, y1, x2 - x1, y2 - y1, id, so x + w and y + h give the far corner back |
| FaceDetection.ConvertTracks | backend/app/services/face_services.py:33-41 | the bbox loop builds exactly the frame's bbox list |
| FaceDetection.Progress | backend/app/services/face_services.py:52 | the progress is the exact quotient: times the frame count it gives 100 · idx |
| FaceDetection.FloorPercent | backend/app/services/face_services.py:53 | `math.floor` of the progress: the whole number at most the progress and within one of it |
| FaceDetection.Decide | backend/app/services/face_services.py:52-55 | a zero frame count raises; a zero int(fps) raises exactly when the floor percentage did not rise; a commit needs a non-zero frame count |
| FaceDetection.Run | backend/app/services/face_services.py:21-61 | the loop over frames 1..n processes every frame unless it raised, and a raise happens at a processed frame |
| FaceDetection.CommitsOrdered | backend/app/services/face_services.py:21 | committed frames are strictly increasing and all among the processed frames 1..logged |
| FaceDetection.FloorPercentMonotone | backend/app/services/face_services.py:52-53 | the floor percentage never falls from a frame to the next |
| FaceDetection.FloorPercentRises | backend/app/services/face_services.py:52-53 | with at most 100 frames the exact floor percentage rises on every frame |
| FaceDetection.FaultIsFinal | backend/app/services/face_services.py:21-55 | once the loop raised, later frames change nothing |
| FaceDetection.CommitsGrow | backend/app/services/face_services.py:55-57 | the commits of a prefix of the frames are a prefix of the later commits |
| FaceDetection.LastPerIsCurrentFloor | backend/app/services/face_services.py:53-56 | on a run that did not raise, `last_per` is the floor percentage of the last frame |
| FaceDetection.LastPerBounded | backend/app/services/face_services.py:53-56 | `last_per` starts at 0 and never exceeds the current floor percentage |
| FaceDetection.LastPerNeverDecreases | backend/app/services/face_services.py:55-56 | `last_per` never decreases |
| FaceDetection.FirstFrameCommits | backend/app/services/face_services.py:55 | frame 1 always commits (unless it is the frame that raises) |
| FaceDetection.CommitsExactly | backend/app/services/face_services.py:55 | on a run that did not raise, frame i commits iff its floor percentage exceeds frame i - 1's, or int(fps) is non-zero and divides i - 1 |
| FaceDetection.NonZeroFpsNeverRaises | backend/app/services/face_services.py:52-55 | a non-zero frame count and int(fps) never raise |
| FaceDetection.ShortVideoCommitsEveryFrame | backend/app/services/face_services.py:52-55 | with exact percentages and at most 100 frames in total, no raise and every frame 1..n commits, whatever the fps |
| FaceDetection.ZeroFpsRaisesAtFirstFrameOfLongVideo | backend/app/services/face_services.py:55 | with int(fps) == 0 and more than 100 frames, frame 1 is logged and then the modulo raises, with nothing committed |
| Backend.PreviewUrl | backend/app/routes/job_routes.py:28-31 | the URL is "/static/previews/", the job id in decimal digits, then "_preview.jpg", and the digits read back as the job id |
| Backend.PreviewUrlInjective | backend/app/routes/job_routes.py:28-31 | each job has its own preview URL |
| Backend.StatusResponse | backend/app/routes/job_routes.py:11-35 | 404 "Job not found" iff the job is unknown; otherwise 200 with the stored job_id, video_id, status and progress; `preview_url` present iff the status is "running", and then the static preview URL iff the preview file exists, else null |
| Backend.LogRows | backend/app/services/face_services.py:44-49 | one row per frame, each of the job |
| Backend.StatusResponseAsWritten | backend/app/routes/job_routes.py:26-27 | as written, without a PREVIEWS_FOLDER setting: 500 exactly for a running job; every other answer is the configured route's, whatever preview files exist |
| Backend.LogRowsAt | backend/app/services/face_services.py:44-49 | exactly one row per frame, row i for frame i + 1 with that frame's bbox list, even when it is empty |
| Backend.LogRowsNext | backend/app/services/face_services.py:44-49 | one more frame adds exactly its row at the end |
| Backend.DetectionKeepsConsistent | backend/app/models.py:29-34 | the rows and the preview the loop adds belong to the job, so every log row and preview still belongs to a stored job |
| Backend.Store.constructor | backend/app/models.py:4-34 | empty tables, ids handed out from 1 |
| Backend.Store.Upload | backend/app/routes/video_routes.py:16-74 | a rejected request answers 400 with the chain's message and stores nothing; a metadata value that is None fails the NOT NULL insert; otherwise exactly one Video is added under a fresh id, status "uploaded", and the 201 body echoes its fields |
| Backend.Store.CreateJob | backend/app/routes/video_routes.py:77-96 | as written: 404 "Video not found" and nothing created for an unknown video; otherwise one pending job with progress 0 for that video is committed, the call at line 89 raises, the answer is 500 and no analysis task starts |
| Backend.Store.CreateJobAsIntended | backend/app/routes/video_routes.py:85-96 | the new pending job with progress 0 is reported with status 200 and exactly one analysis task starts for it |
| Backend.Store.GetJobStatus | backend/app/routes/job_routes.py:11-35 | the status route answers `StatusResponse` of the stored jobs and the preview files that exist |
| Backend.Store.GetJobStatusAsWritten | backend/app/routes/job_routes.py:11-35 | the status route as written answers `StatusResponseAsWritten` of the stored jobs |
| Backend.Store.ExportJob | backend/app/routes/job_routes.py:38-58 | as written: 404 for an unknown job; a job that is not completed gets 500 (the body is a set) and no task; a completed job starts exactly one export task and is echoed |
| Backend.Store.ExportJobAsIntended | backend/app/routes/job_routes.py:46-49 | a job that is not completed gets 400 "Job is not ready for export" and no task |
| Backend.Store.StartAnalysis | backend/app/services/video_services.py:21-22 | the analysis marks the job running before any frame work |
| Backend.Store.StartExport | backend/app/services/video_services.py:51-53 | the export marks the job rendering with progress 0 before rendering |
| Backend.Store.DetectFrame | backend/app/services/face_services.py:27-61 | one iteration: its log row is appended; the job's progress is set to idx / total * 100 and the preview written to this frame exactly when the frame commits; otherwise job and preview are untouched |
| Backend.Store.DetectFaces | backend/app/services/face_services.py:15-63 | the loop ends as `Run` says: the rows of the frames processed are appended in order; the job's progress and the preview are those of the last frame that committed; the store stays consistent |
| Backend.Store.RunAnalysis | backend/app/services/video_services.py:16-39 | the job ends completed with progress 100 iff frame extraction and detection both succeed, else failed with 0; the log rows and preview are the loop's |
| Backend.Store.RunAnalysisAsWritten | backend/app/services/video_services.py:16-39 | as written, detect_faces raises its KeyError before frame 1, so the job always ends failed with progress 0, and no log row or preview is written |
| Backend.Store.RunExport | backend/app/services/video_services.py:46-72 | the job ends done with 100 iff blurring and encoding succeed, else failed with 0 |
| Backend.CreateJobAsWrittenWitness | backend/app/routes/video_routes.py:89 | after an accepted upload, job creation answers 500, starts no task, and the job reads back as pending with progress 0 and no preview key |
| Backend.ExportAsWrittenWitness | backend/app/routes/job_routes.py:46-49 | for a pending job the export route as written answers 500 where the intended one answers 400, and neither starts a task |
| Backend.PreviewsFolderWitness | backend/app/services/face_services.py:19 | as written, a running job's status answers 500 where the configured route answers 200 with a null preview URL, and its analysis ends failed with no log rows |
| Backend.IntendedCreateFlow | backend/app/routes/video_routes.py:85-96 | the intended creation answers 200 pending 0.0, queues one analysis task, and an analysis over no frames completes the job with progress 100 |
| Backend.IntendedExportFlow | backend/app/routes/job_routes.py:46-58 | a completed job is admitted once and queues one export task; after the export a second request is refused with 400 |
| Format.Millis | backend/app/static/js/script.js:92 | the Date's time value is `seconds * 1000` truncated toward zero |
| Format.FourDigitYearIsValid | backend/app/static/js/script.js:92 | every instant with a four-digit year is within TimeClip's 8.64e15 ms, so its Date is valid |
| Format.Clock | backend/app/static/js/script.js:92 | the ISO clock "HH:MM:SS" of a time value reads back as the whole seconds of the UTC time of day |
| Format.YearOfEra | backend/app/static/js/script.js:92 | the year found for a day of a 400-year era starts no later than the day, and the next year starts after it |
| Format.YearOfEraIs | backend/app/static/js/script.js:92 | the year whose start brackets the day is the one found |
| Format.DaysBeforeMonthTable | backend/app/static/js/script.js:92 | the summed month lengths before a month are the common-year table, plus the leap day after February |
| Format.YearLength | backend/app/static/js/script.js:92 | year y is 365 days long plus its Gregorian leap day |
| Format.DayFromYearGrows | backend/app/static/js/script.js:92 | later years start no earlier |
| Format.YearStartStep | backend/app/static/js/script.js:92 | a March-based year is 365 days long plus the leap day of the following February |
| Format.MarchFirst | backend/app/static/js/script.js:92 | the March-based year start of year y is 1 March of civil year y |
| Format.EraShift | backend/app/static/js/script.js:92 | the calendar repeats every 400 years of 146097 days |
| Format.FromMarch | backend/app/static/js/script.js:92 | a day of a year counted from 1 March is a valid civil date whose day number is that of 1 March plus the day |
| Format.YearOfEraFits | backend/app/static/js/script.js:92 | every day of an era lies between the start of the year found for it and the next |
| Format.DayOfEra | backend/app/static/js/script.js:92 | a day of an era falls within the March-based year found for it, counted from its 1 March |
| Format.DateInEra | backend/app/static/js/script.js:92 | the date computed within an era is valid and has the given day number |
| Format.CivilDate | backend/app/static/js/script.js:92 | the UTC date of a time value is a valid Gregorian date whose day number is the time value's day |
| Format.DayNumberInYear | backend/app/static/js/script.js:92 | a valid date's day number lies between the first days of its year and the next |
| Format.DayNumberInjective | backend/app/static/js/script.js:92 | two valid dates with the same day number are equal, so the UTC date is unique |
| Format.DayInYearInjective | backend/app/static/js/script.js:92 | within a year, the month and day are fixed by the count of days before them |
| Format.FourDigitYearDays | backend/app/static/js/script.js:92 | four-digit years are the days from 0000-01-01 up to 10000-01-01 |
| Format.FourDigitYearIsYear | backend/app/static/js/script.js:92 | the ISO string has a four-digit year exactly when the UTC year is 0..9999 |
| Format.SixDigitYearDate | backend/app/static/js/script.js:92 | 3e14 ms after the epoch is 15 August 11476 |
| Format.SixDigitYearClock | backend/app/static/js/script.js:92 | 3e14 ms after the epoch the clock reads 05:20:00 |
| Format.FormatTime | backend/app/static/js/script.js:91-93 | for a valid date with a four-digit year: "HH:MM:SS", the whole seconds of the UTC time of day; otherwise "DDTHH:MM", the day of the UTC civil date, "T", and the clock's hours and minutes |
| Format.SixDigitYearSlice | backend/app/static/js/script.js:92 | 3e11 seconds (15 August 11476) is a valid date shown as "15T05:20" |
| Format.WholeSecondsUnderADay | backend/app/static/js/script.js:92 | a whole number of seconds under a day is shown exactly |
| Format.ClockWrapsDaily | backend/app/static/js/script.js:92 | a whole day later the clock reads the same |
| Format.FormatTimeWrapsDaily | backend/app/static/js/script.js:92 | hours wrap modulo 24: k and k + 86400 seconds are shown alike |
| Format.Pad2 | backend/app/static/js/script.js:92 | a two-digit field reads back as its value |
| Format.UnitIndex | backend/app/static/js/script.js:103 | `floor(log(bytes) / log(1024))` computed exactly: 1024^i <= bytes < 1024^(i+1) |
| Format.UnitIndexUnique | backend/app/static/js/script.js:103 | only that exponent brackets the size |
| Format.FormatSize | backend/app/static/js/script.js:99-105 | 0 bytes is "0 Bytes"; a positive size is shown as a number in [1, 1024) of the unit the index picks, which times 1024^i gives the size back |
| Format.FormatSizeUnits | backend/app/static/js/script.js:100-104 | 0 gives "Bytes" (with amount 0); the unit is Bytes, KB, MB, GB below 1024, 1024^2, 1024^3, 1024^4 bytes, and "undefined" from 1024^4 on |
| Frontend.FirstIndex | backend/app/static/js/script.js:245 | `find` by id: the position of the first object with that id, or none when no object has it |
| Frontend.FirstIndexUnique | backend/app/static/js/script.js:245 | a position holding the id with no earlier match is the one `find` returns |
| Frontend.ListOf | backend/app/static/js/script.js:207-237 | the rendered list has one entry per object, in order, with its id and label, none active |
| Frontend.EditFirst | backend/app/static/js/script.js:281-284 | the edit keeps every id in place, and changes nothing when no object has the id |
| Frontend.EditFirstChangesOnlyFirst | backend/app/static/js/script.js:281-284 | the edit changes only the label and blur flag of the first object with the id; every other object and field stays |
| Frontend.EditShownOnReselect | backend/app/static/js/script.js:258-259 | selecting the edited object again shows the new label and blur flag |
| Frontend.EditFirstIdempotent | backend/app/static/js/script.js:281-284 | applying the same edit twice is the same as once |
| Frontend.MockResultShown | backend/app/static/js/script.js:168-192 | the mock's 185.5-second duration is a valid date shown as "00:03:05", and its objects are listed as p1, p2 |
| Frontend.Session.constructor | backend/app/static/js/script.js:52-55 | no file, no objects, no selection, no download URL |
| Frontend.Session.HandleFileSelect | backend/app/static/js/script.js:115-138 | a MIME type not starting with "video/" gives an error and leaves the selected file and the upload button; a video becomes the selected file, enables upload and is announced |
| Frontend.Session.HandleUpload | backend/app/static/js/script.js:143-201 | nothing without a selected file; a failure reports the reason and re-enables upload; a duration whose Date is invalid (beyond 8.64e15 ms) fails with "Invalid time value" after the fps was shown; on success the objects, their list and the formatted metadata are shown and upload stays disabled |
| Frontend.Session.HandleObjectSelect | backend/app/static/js/script.js:243-273 | the id is recorded even when no object has it, and then nothing else changes; otherwise exactly the list entries with that id are active and the details show the first such object |
| Frontend.Session.HandleDetailsChange | backend/app/static/js/script.js:278-292 | nothing without a truthy selection; otherwise the objects become the first-match edit, and the first list entry with the id shows the new label |
| Frontend.Session.HandleExport | backend/app/static/js/script.js:325-358 | the mock's download URL is stored, the download button enabled, and success reported |
| Frontend.Session.HandleDownload | backend/app/static/js/script.js:363-372 | a set, non-empty URL is navigated to; otherwise the invalid-URL error is shown |

## Left out

- Threads: each background task body is a sequential method run after the route that starts it. The race between
  an export response and the background thread's status change is not modelled. `Store.tasks` only records which tasks were started.
- YOLO inference, SORT tracking and cv2 image reading and writing are inputs. Each frame is a `FrameInput`: the number
  of detector boxes and the tracker's rows.
- `extract_frames`, `frames_to_video` and `blur_faces` are success booleans (`extracted`, `ok`). `RunExport` also
  writes no frames. As shown, utils.py defines only `get_video_metadata` and face_services.py defines no
  `blur_faces`, so the imports at video_services.py:5-6 fail and the backend does not start. The model, including
  the as-written rows under "## Findings", assumes these three functions exist.
- `get_video_metadata` is an input `Metadata`. When a value is missing, the failed insert answers 500.
- The upload-time derived values are an input `SavedFile`:
  - `secure_filename`;
  - the uuid stored name;
  - the MB size and its `round(…, 2)`;
  - `datetime.utcnow`.
- Floating point is not modelled:
  - Progress and its floor percentage are exact rationals, where the source divides in floats.
- FaceDetection.FloorPercentRises holds for exact percentages only. In double precision, at total 100 the floor of
  `(29/100)*100` is 28, the same as at frame 28, so frame 29 does not rise.
- FaceDetection.ShortVideoCommitsEveryFrame holds for exact percentages only. At total 100, frame 29 does not raise
  the double-precision floor: with `int(fps) == 0` the loop raises ZeroDivisionError there, and with
  `int(fps) == 30` frame 29 is not committed.
  - `formatSize`'s `toFixed(2)`/`parseFloat` rounding is not applied: `Format.Size` keeps the exact quotient.
  - `Date`'s time value is the exact truncation of `seconds * 1000`.
- SQLAlchemy sessions and commits are not modelled. Each route or task step is atomic. Ids are autoincrement
  counters starting at 1.
- config.py directory creation is not modelled. The app wiring in app.py registers only the video blueprint, so the
  job routes are unreachable as wired. The model treats them as reachable.
- `FaceObject` (models.py) and utils.py are not part of this model.
- Python's `str.lower()` is modelled on ASCII letters only.
- Non-finite durations (NaN, Infinity) are not modelled, since durations are reals.
- DOM details are not modelled:
  - progress-bar visibility and values;
  - thumbnail and player `src`;
  - the placeholder and metadata panel classes;
  - drag-and-drop styling;
  - the `setTimeout` delays of the mocks;
  - console output.
- The selector string built in `handleDetailsChange` is read as a plain id match.
- `populateObjectList`'s "no objects" placeholder item is not modelled. For an empty list, `ListOf` gives no entries.
- The timestamps panel and the object timeline editor text in `handleObjectSelect` are not modelled.
- `handleSave`, `syncPlayerControls` and the event wiring are not modelled. They are not part of the modelled core.
- Frontend.Session.HandleUpload takes the answer as a parameter. The page builds the fixed `MockResult`
  (script.js:169-179), which cannot fail; the model also covers a failed or arbitrary answer, as the commented-out
  fetch would give.
- Frontend.Session.HandleExport: the mock cannot fail, so its `catch` branch is not modelled.
- UploadValidation.Validate states only that an accepted extension is whitelisted. Its cases are stated by the lemma
  `UploadValidation.ValidateCases`.
- Backend.StatusResponse assumes a configured PREVIEWS_FOLDER, which config.py lacks. `StatusResponseAsWritten`
  models the code as shown.
- Backend.Store.GetJobStatus assumes the same setting. `GetJobStatusAsWritten` models the code as shown.
- Backend.Store.DetectFaces assumes the same setting. As shown, it raises before frame 1; `RunAnalysisAsWritten`
  models the result.
- Backend.Store.RunAnalysis assumes the same setting. `RunAnalysisAsWritten` models the code as shown.
- Backend.Store.RunAnalysis states the job's final status and progress. The intermediate running state is stated
  by `Backend.Store.StartAnalysis`, which it calls first.

## Findings

| source | as written | input that shows it | evidently intended | confidence | as-written member | corrected member |
|---|---|---|---|---|---|---|
| backend/app/routes/video_routes.py:89 | `start_process_job(current_app._get_current_object(), job.id)` passes two arguments to a function of one parameter (video_services.py:11); the TypeError escapes after the job was committed | any POST /videos/1/jobs after an accepted upload: 500, no analysis task, the job stays pending with progress 0 | start the analysis task for the new job and answer 200 with its fields | not executed | Backend.Store.CreateJob, Backend.CreateJobAsWrittenWitness | Backend.Store.CreateJobAsIntended |
| backend/app/routes/job_routes.py:48 | `{"error" "Job is not ready for export"}` concatenates the two literals into a one-element set, which jsonify cannot serialise | POST /jobs/1/export for a pending job: 500 instead of 400 | a 400 answer with `{"error": "Job is not ready for export"}` | not executed | Backend.Store.ExportJob, Backend.ExportAsWrittenWitness | Backend.Store.ExportJobAsIntended |
| backend/app/services/face_services.py:19 | `current_app.config["PREVIEWS_FOLDER"]` is read before the frame loop, but the `Config` class that app.py:9 loads (config.py:5-17) defines no such key; extract_and_detect_task catches the KeyError | any analysis whose frame extraction succeeds: the job ends failed with progress 0, with no DetectionLog row and no preview | a configured previews folder under static/previews, where job_routes.py:31 points the preview URL, so that detection runs over the frames | not executed | Backend.Store.RunAnalysisAsWritten, Backend.PreviewsFolderWitness | Backend.Store.RunAnalysis |
| backend/app/routes/job_routes.py:27 | the same missing key is read for every running job | GET /jobs/1 while job 1 is running: 500 | 200 with the job's fields and `preview_url` | not executed | Backend.StatusResponseAsWritten, Backend.Store.GetJobStatusAsWritten | Backend.StatusResponse |
