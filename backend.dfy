/** The Flask backend: the video and job routes and the two background task bodies, over an
    in-memory store that stands for the database tables, the preview files and the started threads. */
module Backend {
  import opened Common
  import opened Lifecycle
  import opened FaceDetection
  import UploadValidation

  /** What get_video_metadata reports about the saved file; a field is None where it yields None. */
  datatype Metadata = Metadata(fps: Option<real>, totalFrames: Option<int>, duration: Option<real>,
                               width: Option<int>, height: Option<int>)

  predicate Complete(m: Metadata)
  {
    m.fps.Some? && m.totalFrames.Some? && m.duration.Some? && m.width.Some? && m.height.Some?
  }

  /** What the upload route derives from the saved file apart from its metadata: the sanitised
      original name, the random stored name, the size rounded to MB, and the insertion time. */
  datatype SavedFile = SavedFile(originalName: string, storedName: string, sizeMb: real, uploadedAt: int)

  datatype Video = Video(filenameOriginal: string, filenameStored: string, sizeMb: real, fps: real,
                         totalFrames: int, duration: real, width: int, height: int,
                         status: string, uploadedAt: int)

  datatype Job = Job(videoId: nat, status: JobStatus, progress: real)

  /** One DetectionLog row: the job, the 1-based frame index and the frame's bbox list. */
  datatype DetectionLog = DetectionLog(jobId: nat, frameIdx: nat, bboxes: seq<BBox>)

  /** A background thread started by a route. */
  datatype Task = AnalysisTask(jobId: nat) | ExportTask(jobId: nat)

  /** The JSON bodies the routes send. `previewUrl` is None when the key is absent and Some(None) for null. */
  datatype Body =
    | ErrorBody(error: string)
    | VideoBody(videoId: nat, filenameOriginal: string, sizeMb: real, fps: real, totalFrames: int,
                duration: real, width: int, height: int, status: string, uploadedAt: int)
    | JobBody(jobId: nat, videoId: nat, status: string, progress: real)
    | StatusBody(jobId: nat, videoId: nat, status: string, progress: real, previewUrl: Option<Option<string>>)
    | InternalError  // Flask's answer to an unhandled exception in a view

  datatype Response = Response(code: int, body: Body)

  function NewVideo(saved: SavedFile, meta: Metadata): Video
    requires Complete(meta)
  {
    Video(saved.originalName, saved.storedName, saved.sizeMb, meta.fps.value, meta.totalFrames.value,
          meta.duration.value, meta.width.value, meta.height.value, "uploaded", saved.uploadedAt)
  }

  /** The 201 body of a successful upload echoes the stored row (the stored name excepted). */
  function UploadEcho(id: nat, v: Video): Body
  {
    VideoBody(id, v.filenameOriginal, v.sizeMb, v.fps, v.totalFrames, v.duration, v.width, v.height, v.status, v.uploadedAt)
  }

  function JobView(id: nat, job: Job): Body
  {
    JobBody(id, job.videoId, Name(job.status), job.progress)
  }

  function PreviewFileName(jobId: nat): string
  {
    NatToString(jobId) + "_preview.jpg"
  }

  /** `url_for("static", filename=f"previews/{job.id}_preview.jpg")`: the job id, in decimal, between
      the static previews prefix and the file suffix. */
  function PreviewUrl(jobId: nat): (url: string)
    ensures StartsWith(url, "/static/previews/") && EndsWith(url, "_preview.jpg") && |url| > 29
    ensures (forall i :: 17 <= i < |url| - 12 ==> IsDigit(url[i])) && ParseDigits(url[17..|url| - 12]) == jobId
  {
    var url := "/static/previews/" + PreviewFileName(jobId);
    assert url[17..|url| - 12] == NatToString(jobId);
    ParseNatToString(jobId);
    url
  }

  /** Each job has its own preview URL. */
  lemma PreviewUrlInjective(a: nat, b: nat)
    requires PreviewUrl(a) == PreviewUrl(b)
    ensures a == b
  {
    var p := "/static/previews/";
    var s := "_preview.jpg";
    var ua, ub := PreviewUrl(a), PreviewUrl(b);
    assert ua == p + NatToString(a) + s && ub == p + NatToString(b) + s;
    assert NatToString(a) == ua[|p|..|ua| - |s|];
    assert NatToString(b) == ub[|p|..|ub| - |s|];
    NatToStringInjective(a, b);
  }

  /** The status route: 404 for an unknown job; otherwise the stored fields, plus `preview_url` only while
      running, set to the preview's URL when its file exists and to null otherwise. */
  function StatusResponse(jobs: map<nat, Job>, previewFiles: set<nat>, jobId: nat): (r: Response)
    ensures jobId !in jobs <==> r == Response(404, ErrorBody("Job not found"))
    ensures jobId in jobs ==>
      r.code == 200 && r.body.StatusBody? && r.body.jobId == jobId && r.body.videoId == jobs[jobId].videoId &&
      r.body.status == Name(jobs[jobId].status) && r.body.progress == jobs[jobId].progress
    ensures r.body.StatusBody? ==> (r.body.previewUrl.Some? <==> r.body.status == "running")
    ensures r.body.StatusBody? && r.body.previewUrl.Some? ==>
      r.body.previewUrl.value == (if jobId in previewFiles then Some(PreviewUrl(jobId)) else None)
  {
    if jobId !in jobs then Response(404, ErrorBody("Job not found"))
    else
      var job := jobs[jobId];
      var preview := if Name(job.status) != "running" then None
                     else if jobId in previewFiles then Some(Some(PreviewUrl(jobId)))
                     else Some(None);
      Response(200, StatusBody(jobId, job.videoId, Name(job.status), job.progress, preview))
  }

  /** The status route as written: config.py defines no PREVIEWS_FOLDER, so for a running job the lookup
      of that key raises a KeyError and Flask answers with an internal error. Every other answer is the
      configured route's, which looks at the preview files only for a running job. */
  function StatusResponseAsWritten(jobs: map<nat, Job>, jobId: nat): (r: Response)
    ensures r == Response(500, InternalError) <==> jobId in jobs && jobs[jobId].status == Running
    ensures r.code != 500 ==> forall previewFiles :: r == StatusResponse(jobs, previewFiles, jobId)
  {
    if jobId in jobs && jobs[jobId].status == Running then Response(500, InternalError)
    else StatusResponse(jobs, {}, jobId)
  }

  /** The rows the detection loop adds for frames 1..|fs|: one per frame, all of the job. */
  function LogRows(jobId: nat, fs: seq<FrameInput>): (rows: seq<DetectionLog>)
    ensures |rows| == |fs| && forall i :: 0 <= i < |rows| ==> rows[i].jobId == jobId
  {
    if fs == [] then []
    else LogRows(jobId, fs[..|fs| - 1]) + [DetectionLog(jobId, |fs|, FrameBoxes(fs[|fs| - 1]))]
  }

  /** One row per frame, in frame order, even for a frame with no boxes. */
  lemma {:induction false} LogRowsAt(jobId: nat, fs: seq<FrameInput>)
    ensures |LogRows(jobId, fs)| == |fs|
    ensures forall i :: 0 <= i < |fs| ==> LogRows(jobId, fs)[i] == DetectionLog(jobId, i + 1, FrameBoxes(fs[i]))
  {
    if fs != [] {
      var init := fs[..|fs| - 1];
      LogRowsAt(jobId, init);
      forall i | 0 <= i < |fs| - 1
        ensures LogRows(jobId, fs)[i] == DetectionLog(jobId, i + 1, FrameBoxes(fs[i]))
      {
        assert init[i] == fs[i];
      }
    }
  }

  lemma LogRowsNext(jobId: nat, fs: seq<FrameInput>, i: nat)
    requires i < |fs|
    ensures LogRows(jobId, fs[..i + 1]) == LogRows(jobId, fs[..i]) + [DetectionLog(jobId, i + 1, FrameBoxes(fs[i]))]
  {
    assert fs[..i + 1][..i] == fs[..i];
  }

  function Last(s: seq<nat>): nat
    requires s != []
  {
    s[|s| - 1]
  }

  /** The jobs table once the frames in `commits` have committed: the job's progress is that of the last one. */
  function ProgressAfter(jobs: map<nat, Job>, jobId: nat, commits: seq<nat>, total: int): map<nat, Job>
    requires jobId in jobs
  {
    if commits == [] || total == 0 then jobs
    else jobs[jobId := jobs[jobId].(progress := Progress(Last(commits), total))]
  }

  /** The preview files once the frames in `commits` have committed: the job's file holds the last one. */
  function PreviewAfter(previews: map<nat, nat>, jobId: nat, commits: seq<nat>): map<nat, nat>
  {
    if commits == [] then previews else previews[jobId := Last(commits)]
  }

  /** A second update of the same key replaces the first. */
  lemma UpdateTwice<V>(m: map<nat, V>, k: nat, a: V, b: V)
    ensures m[k := a][k := b] == m[k := b]
  {
  }

  /** Ids are handed out from the counters, every job belongs to a stored video, and every log row and
      preview file belongs to a stored job. */
  ghost predicate Consistent(videos: map<nat, Video>, jobs: map<nat, Job>, logs: seq<DetectionLog>,
                             previews: map<nat, nat>, nextVideoId: nat, nextJobId: nat)
  {
    && 1 <= nextVideoId && 1 <= nextJobId
    && (forall v :: v in videos ==> 1 <= v < nextVideoId)
    && (forall j :: j in jobs ==> 1 <= j < nextJobId && jobs[j].videoId in videos)
    && (forall i :: 0 <= i < |logs| ==> logs[i].jobId in jobs)
    && (forall j :: j in previews ==> j in jobs)
  }

  /** The detection loop keeps the store consistent. */
  lemma DetectionKeepsConsistent(videos: map<nat, Video>, jobs: map<nat, Job>, logs: seq<DetectionLog>,
                                 previews: map<nat, nat>, nextVideoId: nat, nextJobId: nat,
                                 jobId: nat, fs: seq<FrameInput>, commits: seq<nat>, total: int)
    requires Consistent(videos, jobs, logs, previews, nextVideoId, nextJobId) && jobId in jobs
    ensures Consistent(videos, ProgressAfter(jobs, jobId, commits, total), logs + LogRows(jobId, fs),
                       PreviewAfter(previews, jobId, commits), nextVideoId, nextJobId)
  {
    LogRowsAt(jobId, fs);
  }

  class Store {
    var videos: map<nat, Video>
    var jobs: map<nat, Job>
    var logs: seq<DetectionLog>
    /** Job ids whose preview file exists, each with the frame whose image it holds. */
    var previews: map<nat, nat>
    /** The background tasks started so far, in order. */
    var tasks: seq<Task>
    var nextVideoId: nat
    var nextJobId: nat

    ghost predicate Valid()
      reads this
    {
      Consistent(videos, jobs, logs, previews, nextVideoId, nextJobId)
    }

    constructor ()
      ensures Valid()
      ensures videos == map[] && jobs == map[] && logs == [] && previews == map[] && tasks == []
      ensures nextVideoId == 1 && nextJobId == 1
    {
      videos, jobs, logs, previews, tasks := map[], map[], [], map[], [];
      nextVideoId, nextJobId := 1, 1;
    }

    /** POST /videos/: the validation chain, then one new Video row. `file` is the uploaded file's name,
        None when the request has no "file" part. A metadata value of None fails the NOT NULL insert. */
    method Upload(file: Option<string>, saved: SavedFile, meta: Metadata) returns (resp: Response)
      requires Valid()
      modifies this
      ensures Valid()
      ensures jobs == old(jobs) && logs == old(logs) && previews == old(previews) && tasks == old(tasks)
      ensures nextJobId == old(nextJobId)
      ensures UploadValidation.Validate(file).Err? ==>
        resp == Response(400, ErrorBody(UploadValidation.ErrorMessage(UploadValidation.Validate(file).error)))
        && unchanged(this)
      ensures UploadValidation.Validate(file).Ok? && !Complete(meta) ==>
        resp == Response(500, InternalError) && unchanged(this)
      ensures UploadValidation.Validate(file).Ok? && Complete(meta) ==>
        && videos == old(videos)[old(nextVideoId) := NewVideo(saved, meta)]
        && old(nextVideoId) !in old(videos)
        && nextVideoId == old(nextVideoId) + 1
        && resp == Response(201, UploadEcho(old(nextVideoId), NewVideo(saved, meta)))
    {
      var checked := UploadValidation.Validate(file);
      if checked.Err? {
        return Response(400, ErrorBody(UploadValidation.ErrorMessage(checked.error)));
      }
      if !Complete(meta) {
        return Response(500, InternalError);
      }
      var video := NewVideo(saved, meta);
      var id := nextVideoId;
      videos := videos[id := video];
      nextVideoId := nextVideoId + 1;
      resp := Response(201, UploadEcho(id, video));
    }

    /** POST /videos/<id>/jobs as written: the new pending job is committed, then the call
        start_process_job(app, job.id) passes two arguments to a one-parameter function, the TypeError
        escapes the view, and no analysis thread is started. */
    method CreateJob(videoId: nat) returns (resp: Response)
      requires Valid()
      modifies this
      ensures Valid()
      ensures videos == old(videos) && nextVideoId == old(nextVideoId)
      ensures logs == old(logs) && previews == old(previews) && tasks == old(tasks)
      ensures videoId !in old(videos) ==> resp == Response(404, ErrorBody("Video not found")) && unchanged(this)
      ensures videoId in old(videos) ==>
        && jobs == old(jobs)[old(nextJobId) := Job(videoId, Pending, 0.0)]
        && old(nextJobId) !in old(jobs)
        && nextJobId == old(nextJobId) + 1
        && resp == Response(500, InternalError)
    {
      if videoId !in videos {
        return Response(404, ErrorBody("Video not found"));
      }
      var id := nextJobId;
      jobs := jobs[id := Job(videoId, Pending, 0.0)];
      nextJobId := nextJobId + 1;
      resp := Response(500, InternalError);
    }

    /** POST /videos/<id>/jobs as its authors evidently meant it: the analysis thread is started for the
        new job and the job's fields are returned. */
    method CreateJobAsIntended(videoId: nat) returns (resp: Response)
      requires Valid()
      modifies this
      ensures Valid()
      ensures videos == old(videos) && nextVideoId == old(nextVideoId)
      ensures logs == old(logs) && previews == old(previews)
      ensures videoId !in old(videos) ==> resp == Response(404, ErrorBody("Video not found")) && unchanged(this)
      ensures videoId in old(videos) ==>
        && jobs == old(jobs)[old(nextJobId) := Job(videoId, Pending, 0.0)]
        && old(nextJobId) !in old(jobs)
        && nextJobId == old(nextJobId) + 1
        && tasks == old(tasks) + [AnalysisTask(old(nextJobId))]
        && resp == Response(200, JobBody(old(nextJobId), videoId, "pending", 0.0))
    {
      if videoId !in videos {
        return Response(404, ErrorBody("Video not found"));
      }
      var id := nextJobId;
      jobs := jobs[id := Job(videoId, Pending, 0.0)];
      nextJobId := nextJobId + 1;
      tasks := tasks + [AnalysisTask(id)];
      resp := Response(200, JobView(id, jobs[id]));
    }

    /** GET /jobs/<id>: a read of the store. */
    method GetJobStatus(jobId: nat) returns (resp: Response)
      ensures resp == StatusResponse(jobs, previews.Keys, jobId)
    {
      resp := StatusResponse(jobs, previews.Keys, jobId);
    }

    /** GET /jobs/<id> as written, without a PREVIEWS_FOLDER setting. */
    method GetJobStatusAsWritten(jobId: nat) returns (resp: Response)
      ensures resp == StatusResponseAsWritten(jobs, jobId)
    {
      resp := StatusResponseAsWritten(jobs, jobId);
    }

    /** POST /jobs/<id>/export as written: a job that is not completed gets a Python set
        {"errorJob is not ready for export"} as its body, which jsonify cannot serialise, so the
        answer is an internal error instead of 400. Only a completed job starts the export thread. */
    method ExportJob(jobId: nat) returns (resp: Response)
      requires Valid()
      modifies this`tasks
      ensures Valid()
      ensures jobId !in jobs ==> resp == Response(404, ErrorBody("Job not found")) && tasks == old(tasks)
      ensures jobId in jobs && !Exportable(jobs[jobId].status) ==>
        resp == Response(500, InternalError) && tasks == old(tasks)
      ensures jobId in jobs && Exportable(jobs[jobId].status) ==>
        tasks == old(tasks) + [ExportTask(jobId)] && resp == Response(200, JobView(jobId, jobs[jobId]))
    {
      if jobId !in jobs {
        return Response(404, ErrorBody("Job not found"));
      }
      var job := jobs[jobId];
      if job.status != Completed {
        return Response(500, InternalError);
      }
      tasks := tasks + [ExportTask(jobId)];
      resp := Response(200, JobView(jobId, job));
    }

    /** POST /jobs/<id>/export as evidently meant: 400 with an "error" key for a job not yet completed. */
    method ExportJobAsIntended(jobId: nat) returns (resp: Response)
      requires Valid()
      modifies this`tasks
      ensures Valid()
      ensures jobId !in jobs ==> resp == Response(404, ErrorBody("Job not found")) && tasks == old(tasks)
      ensures jobId in jobs && !Exportable(jobs[jobId].status) ==>
        resp == Response(400, ErrorBody("Job is not ready for export")) && tasks == old(tasks)
      ensures jobId in jobs && Exportable(jobs[jobId].status) ==>
        tasks == old(tasks) + [ExportTask(jobId)] && resp == Response(200, JobView(jobId, jobs[jobId]))
    {
      if jobId !in jobs {
        return Response(404, ErrorBody("Job not found"));
      }
      var job := jobs[jobId];
      if job.status != Completed {
        return Response(400, ErrorBody("Job is not ready for export"));
      }
      tasks := tasks + [ExportTask(jobId)];
      resp := Response(200, JobView(jobId, job));
    }

    /** One iteration of the detect_faces loop, for frame `idx` (1-based): the frame's log row is added,
        then the progress test runs; a frame that commits stores the progress in the job and writes the
        preview image. The decision tells the loop whether the frame committed or raised. */
    method DetectFrame(jobId: nat, idx: nat, frame: FrameInput, total: int, fpsStep: int, lastPer: int)
      returns (d: Decision)
      requires jobId in jobs
      modifies this`logs, this`jobs, this`previews
      ensures d == Decide(idx, total, fpsStep, lastPer)
      ensures logs == old(logs) + [DetectionLog(jobId, idx, FrameBoxes(frame))]
      ensures d == Commit ==>
        total != 0
        && jobs == old(jobs)[jobId := old(jobs[jobId]).(progress := Progress(idx, total))]
        && previews == old(previews)[jobId := idx]
      ensures d != Commit ==> jobs == old(jobs) && previews == old(previews)
    {
      var bboxes := ConvertTracks(frame);
      logs := logs + [DetectionLog(jobId, idx, bboxes)];
      if total == 0 {
        return Raise(ZeroTotalFrames);
      }
      var progress := Progress(idx, total);
      var currentPer := FloorPercent(idx, total);
      if currentPer <= lastPer && fpsStep == 0 {
        return Raise(ZeroFps);
      }
      if currentPer > lastPer || (idx - 1) % fpsStep == 0 {
        jobs := jobs[jobId := jobs[jobId].(progress := progress)];
        previews := previews[jobId := idx];
        return Commit;
      }
      return Skip;
    }

    /** detect_faces: one pass over the frame files in sorted order, frame indices 1..n. The loop stops at
        the first ZeroDivisionError, after that frame's row was added; the job's progress and the preview
        file are those of the last frame that committed. */
    method DetectFaces(jobId: nat, video: Video, frames: seq<FrameInput>) returns (fault: Option<Fault>, commits: seq<nat>)
      requires Valid() && jobId in jobs
      modifies this`logs, this`jobs, this`previews
      ensures Valid()
      ensures var t := Run(|frames|, video.totalFrames, Trunc(video.fps));
        && fault == t.fault && commits == t.commits
        && logs == old(logs) + LogRows(jobId, frames[..t.logged])
        && jobs == ProgressAfter(old(jobs), jobId, commits, video.totalFrames)
        && previews == PreviewAfter(old(previews), jobId, commits)
    {
      var total, fpsStep := video.totalFrames, Trunc(video.fps);
      var lastPer := 0;
      fault, commits := None, [];
      var i := 0;
      ghost var logs0, jobs0, previews0 := logs, jobs, previews;
      while i < |frames| && fault.None?
        invariant 0 <= i <= |frames|
        invariant Run(i, total, fpsStep) == Trace(i, lastPer, commits, fault)
        invariant jobId in jobs
        invariant logs == logs0 + LogRows(jobId, frames[..i])
        invariant jobs == ProgressAfter(jobs0, jobId, commits, total)
        invariant previews == PreviewAfter(previews0, jobId, commits)
      {
        var d := DetectFrame(jobId, i + 1, frames[i], total, fpsStep, lastPer);
        LogRowsNext(jobId, frames, i);
        assert logs0 + LogRows(jobId, frames[..i + 1])
            == logs0 + LogRows(jobId, frames[..i]) + [DetectionLog(jobId, i + 1, FrameBoxes(frames[i]))];
        RunNext(i, total, fpsStep, d);
        match d {
          case Commit =>
            if commits != [] {
              UpdateTwice(jobs0, jobId, jobs0[jobId].(progress := Progress(Last(commits), total)),
                          jobs0[jobId].(progress := Progress(i + 1, total)));
              UpdateTwice(previews0, jobId, Last(commits), i + 1);
            }
            lastPer := FloorPercent(i + 1, total);
            commits := commits + [i + 1];
          case Skip =>
          case Raise(f) =>
            fault := Some(f);
        }
        i := i + 1;
      }
      if fault.Some? {
        FaultIsFinal(i, |frames|, total, fpsStep);
      }
      DetectionKeepsConsistent(videos, jobs0, logs0, previews0, nextVideoId, nextJobId,
                               jobId, frames[..i], commits, total);
    }

    /** The first commit of extract_and_detect_task, before any frame work: the job is running. */
    method StartAnalysis(jobId: nat)
      requires Valid() && jobId in jobs
      modifies this`jobs
      ensures Valid()
      ensures jobs == old(jobs)[jobId := old(jobs[jobId]).(status := Running)]
    {
      jobs := jobs[jobId := jobs[jobId].(status := Running)];
    }

    /** The first commit of blur_and_export_task, before any rendering: the job is rendering from 0. */
    method StartExport(jobId: nat)
      requires Valid() && jobId in jobs
      modifies this`jobs
      ensures Valid()
      ensures jobs == old(jobs)[jobId := old(jobs[jobId]).(status := Rendering, progress := 0.0)]
    {
      jobs := jobs[jobId := jobs[jobId].(status := Rendering, progress := 0.0)];
    }

    /** extract_and_detect_task: "running" before any frame work, then "completed" with progress 100, or
        "failed" with progress 0 when frame extraction (`extracted` false) or detection raises. */
    method RunAnalysis(jobId: nat, extracted: bool, frames: seq<FrameInput>) returns (fault: Option<Fault>)
      requires Valid() && jobId in jobs
      modifies this`logs, this`jobs, this`previews
      ensures Valid()
      ensures var video := old(videos[jobs[jobId].videoId]);
        var t := Run(|frames|, video.totalFrames, Trunc(video.fps));
        var ok := extracted && t.fault.None?;
        && (extracted ==> fault == t.fault)
        && jobs == old(jobs)[jobId := old(jobs[jobId]).(status := AfterAnalysis(ok),
                                                       progress := if ok then 100.0 else 0.0)]
        && logs == old(logs) + (if extracted then LogRows(jobId, frames[..t.logged]) else [])
        && previews == (if extracted then PreviewAfter(old(previews), jobId, t.commits) else old(previews))
    {
      ghost var jobs0 := jobs;
      var video := videos[jobs[jobId].videoId];
      StartAnalysis(jobId);
      ghost var jobs1 := jobs;
      if !extracted {
        jobs := jobs[jobId := jobs[jobId].(status := Failed, progress := 0.0)];
        UpdateTwice(jobs0, jobId, jobs1[jobId], jobs[jobId]);
        return None;
      }
      var commits;
      fault, commits := DetectFaces(jobId, video, frames);
      ghost var jobs2 := jobs;
      if fault.None? {
        jobs := jobs[jobId := jobs[jobId].(status := Completed, progress := 100.0)];
      } else {
        jobs := jobs[jobId := jobs[jobId].(status := Failed, progress := 0.0)];
      }
      if jobs2 != jobs1 {
        UpdateTwice(jobs1, jobId, jobs2[jobId], jobs[jobId]);
      }
      UpdateTwice(jobs0, jobId, jobs1[jobId], jobs[jobId]);
    }

    /** extract_and_detect_task as written: detect_faces reads `current_app.config["PREVIEWS_FOLDER"]`
        before its first frame, and config.py defines no such key. Whether frame extraction fails or
        the KeyError follows it, the handler ends the job "failed" with progress 0, and no log row and
        no preview are ever written. */
    method RunAnalysisAsWritten(jobId: nat)
      requires Valid() && jobId in jobs
      modifies this`jobs
      ensures Valid()
      ensures jobs == old(jobs)[jobId := old(jobs[jobId]).(status := Failed, progress := 0.0)]
    {
      ghost var jobs0 := jobs;
      StartAnalysis(jobId);
      ghost var jobs1 := jobs;
      jobs := jobs[jobId := jobs[jobId].(status := Failed, progress := 0.0)];
      UpdateTwice(jobs0, jobId, jobs1[jobId], jobs[jobId]);
    }

    /** blur_and_export_task: "rendering" with progress 0, then "done" with 100 when blurring and encoding
        succeed (`ok`), "failed" with 0 otherwise. */
    method RunExport(jobId: nat, ok: bool)
      requires Valid() && jobId in jobs
      modifies this`jobs
      ensures Valid()
      ensures jobs == old(jobs)[jobId := old(jobs[jobId]).(status := AfterExport(ok),
                                                         progress := if ok then 100.0 else 0.0)]
    {
      StartExport(jobId);
      if ok {
        jobs := jobs[jobId := jobs[jobId].(status := Done, progress := 100.0)];
      } else {
        jobs := jobs[jobId := jobs[jobId].(status := Failed, progress := 0.0)];
      }
    }
  }

  /** The metadata of a well-formed upload: a 30 fps, 300-frame, 10-second 640x480 video. */
  function SampleMetadata(): Metadata
  {
    Metadata(Some(30.0), Some(300), Some(10.0), Some(640), Some(480))
  }

  function SampleFile(name: string): SavedFile
  {
    SavedFile(name, "0f3a.mp4", 1.5, 0)
  }

  /** As written, creating a job for a stored video (uploaded under any accepted name) answers 500, starts no analysis, and leaves the job
      pending for good. */
  method CreateJobAsWrittenWitness(name: string) returns (created: Response, status: Response, tasks: seq<Task>)
    requires UploadValidation.Validate(Some(name)).Ok?
    ensures created == Response(500, InternalError)
    ensures status == Response(200, StatusBody(1, 1, "pending", 0.0, None))
    ensures tasks == []
  {
    var store := new Store();
    var uploaded := store.Upload(Some(name), SampleFile(name), SampleMetadata());
    created := store.CreateJob(1);
    status := store.GetJobStatus(1);
    tasks := store.tasks;
  }

  /** As written, an export request for a job that is not completed answers 500; the evidently
      intended route answers 400 "Job is not ready for export". Neither starts an export. */
  method ExportAsWrittenWitness(name: string) returns (asWritten: Response, intended: Response, tasks: seq<Task>)
    requires UploadValidation.Validate(Some(name)).Ok?
    ensures asWritten == Response(500, InternalError)
    ensures intended == Response(400, ErrorBody("Job is not ready for export"))
    ensures tasks == []
  {
    var store := new Store();
    var uploaded := store.Upload(Some(name), SampleFile(name), SampleMetadata());
    var created := store.CreateJob(1);
    asWritten := store.ExportJob(1);
    intended := store.ExportJobAsIntended(1);
    tasks := store.tasks;
  }

  /** As written, a running job's status request answers 500 where the configured route answers with
      a null preview URL, and its analysis ends failed without a single log row. */
  method PreviewsFolderWitness(name: string) returns (status: Response, configured: Response, job: Job, logs: seq<DetectionLog>)
    requires UploadValidation.Validate(Some(name)).Ok?
    ensures status == Response(500, InternalError)
    ensures configured == Response(200, StatusBody(1, 1, "running", 0.0, Some(None)))
    ensures job == Job(1, Failed, 0.0) && logs == []
  {
    var store := new Store();
    var uploaded := store.Upload(Some(name), SampleFile(name), SampleMetadata());
    var created := store.CreateJob(1);
    store.StartAnalysis(1);
    status := store.GetJobStatusAsWritten(1);
    configured := store.GetJobStatus(1);
    store.RunAnalysisAsWritten(1);
    job, logs := store.jobs[1], store.logs;
  }

  /** The evidently intended flow up to analysis: upload, job creation (which queues the analysis), and
      the analysis of a video without frames, which completes the job. */
  method IntendedCreateFlow(name: string) returns (created: Response, job: Job, tasks: seq<Task>)
    requires UploadValidation.Validate(Some(name)).Ok?
    ensures created == Response(200, JobBody(1, 1, "pending", 0.0))
    ensures job == Job(1, Completed, 100.0)
    ensures tasks == [AnalysisTask(1)]
  {
    var store := new Store();
    var uploaded := store.Upload(Some(name), SampleFile(name), SampleMetadata());
    assert 1 in store.videos;
    created := store.CreateJobAsIntended(1);
    tasks := store.tasks;
    assert store.jobs[1] == Job(1, Pending, 0.0);
    assert Run(0, 300, Trunc(30.0)).fault.None?;
    var fault := store.RunAnalysis(1, true, []);
    job := store.jobs[1];
  }

  /** The evidently intended export of a completed job: the first request is admitted and queues one
      export, which ends the job as done; a second request is refused. */
  method IntendedExportFlow(store: Store, jobId: nat, ok: bool) returns (exported: Response, again: Response)
    requires store.Valid() && jobId in store.jobs && store.jobs[jobId].status == Completed
    modifies store
    ensures exported == Response(200, JobBody(jobId, old(store.jobs[jobId].videoId), "completed", old(store.jobs[jobId].progress)))
    ensures again == Response(400, ErrorBody("Job is not ready for export"))
    ensures store.tasks == old(store.tasks) + [ExportTask(jobId)]
    ensures jobId in store.jobs && store.jobs[jobId].status == AfterExport(ok)
  {
    exported := store.ExportJobAsIntended(jobId);
    store.RunExport(jobId, ok);
    again := store.ExportJobAsIntended(jobId);
  }
}
