/** The page script's session state: the selected file, the detected objects and the object list built
    from them, the selected object id, the details panel, the metadata panel, and the download URL. */
module Frontend {
  import opened Common
  import Format

  datatype File = File(name: string, mimeType: string, size: nat)

  datatype Span = Span(start: real, end: real)

  datatype DetectedObject = DetectedObject(id: string, labelText: string, isBlurred: bool, thumbnailUrl: string,
                                           timestamps: seq<Span>)

  /** An entry of the rendered object list: its data-id, the text of its label span, and the active class. */
  datatype ListItem = ListItem(id: string, labelText: string, active: bool)

  /** The details panel: the label input and the blur checkbox. */
  datatype Details = Details(labelText: string, blurred: bool)

  /** The server's answer to an upload: the metadata and the detected objects. */
  datatype UploadResult = UploadResult(fps: real, duration: real, size: nat, objects: seq<DetectedObject>)

  datatype Level = Info | Error | Success

  datatype Message =
    | NotAVideo | FileSelected(name: string) | Uploading | UploadDone | UploadFailed(reason: string)
    | Exporting | ExportDone | DownloadStarting | InvalidDownloadUrl

  datatype Status = Status(level: Level, message: Message)

  /** The URL the export mock answers with. */
  const MockDownloadUrl := "/api/download?file=processed_video_xyz.mp4"

  /** The message of the RangeError toISOString throws for a time value it cannot print. */
  const InvalidTimeValue := "Invalid time value"

  /** The answer the upload mock builds in place of a server reply: 30 fps, 185.5 seconds, the selected
      file's size, and two people. */
  function MockResult(size: nat): UploadResult
  {
    UploadResult(30.0, 185.5, size,
      [ DetectedObject("p1", "Person 1", true, "https://via.placeholder.com/45", [Span(10.5, 25.2), Span(50.1, 60.0)]),
        DetectedObject("p2", "Person 2", false, "https://via.placeholder.com/45", [Span(15.0, 40.7)]) ])
  }

  /** The mock's duration is a valid date, shown as "00:03:05", and its objects are listed as p1, p2. */
  lemma MockResultShown(size: nat)
    ensures Format.ValidTime(MockResult(size).duration)
    ensures Format.FormatTime(MockResult(size).duration) == "00:03:05"
    ensures ItemIds(ListOf(MockResult(size).objects)) == ["p1", "p2"]
  {
    var ms := 185500;
    assert Format.Millis(185.5) == ms;
    DivModUnique(ms, Format.MsPerHour, 0, ms);
    DivModUnique(ms, Format.MsPerMinute, 3, 5500);
    DivModUnique(ms, Format.MsPerSecond, 185, 500);
    DivModUnique(185, 60, 3, 5);
    assert Format.Clock(ms) == "00:03:05";
  }

  /** JavaScript truthiness of a string-or-null variable: null and "" are falsy. */
  predicate Truthy(s: Option<string>)
  {
    s.Some? && s.value != ""
  }

  predicate IsVideoType(mimeType: string)
  {
    StartsWith(mimeType, "video/")
  }

  function ObjectIds(objects: seq<DetectedObject>): (ids: seq<string>)
    ensures |ids| == |objects| && forall k :: 0 <= k < |objects| ==> ids[k] == objects[k].id
  {
    seq(|objects|, k requires 0 <= k < |objects| => objects[k].id)
  }

  /** The data-ids of the rendered list entries. The page keeps the object array and the list entries
      apart (handleObjectSelect searches the one and restyles the other), so each has its own id view. */
  function ItemIds(items: seq<ListItem>): (ids: seq<string>)
    ensures |ids| == |items| && forall k :: 0 <= k < |items| ==> ids[k] == items[k].id
  {
    seq(|items|, k requires 0 <= k < |items| => items[k].id)
  }

  /** `Array.prototype.find` (and querySelector) by id: the position of the first match, if any. */
  function FirstIndex(ids: seq<string>, id: string): (r: Option<nat>)
    ensures r.Some? ==> r.value < |ids| && ids[r.value] == id && forall k :: 0 <= k < r.value ==> ids[k] != id
    ensures r.None? ==> forall k :: 0 <= k < |ids| ==> ids[k] != id
  {
    if ids == [] then None
    else if ids[0] == id then Some(0)
    else match FirstIndex(ids[1..], id)
      case None => None
      case Some(k) => Some(k + 1)
  }

  /** Any position meeting FirstIndex's contract is the one it returns. */
  lemma FirstIndexUnique(ids: seq<string>, id: string, i: nat)
    requires i < |ids| && ids[i] == id && forall k :: 0 <= k < i ==> ids[k] != id
    ensures FirstIndex(ids, id) == Some(i)
  {
  }

  /** populateObjectList: one inactive entry per object, in order, showing its label. */
  function ListOf(objects: seq<DetectedObject>): (items: seq<ListItem>)
    ensures ItemIds(items) == ObjectIds(objects)
    ensures forall k :: 0 <= k < |objects| ==> items[k].labelText == objects[k].labelText && !items[k].active
  {
    seq(|objects|, k requires 0 <= k < |objects| => ListItem(objects[k].id, objects[k].labelText, false))
  }

  /** handleDetailsChange on the object array: the first object with that id takes the new label and
      blur flag; nothing else changes. */
  function EditFirst(objects: seq<DetectedObject>, id: string, labelText: string, blurred: bool): (r: seq<DetectedObject>)
    ensures ObjectIds(r) == ObjectIds(objects)
    ensures FirstIndex(ObjectIds(objects), id).None? ==> r == objects
  {
    match FirstIndex(ObjectIds(objects), id)
    case None => objects
    case Some(i) =>
      var r := objects[i := objects[i].(labelText := labelText, isBlurred := blurred)];
      assert ObjectIds(r) == ObjectIds(objects);
      r
  }

  /** Only the first object with the id is edited, only in its label and blur flag, and the ids stay. */
  lemma EditFirstChangesOnlyFirst(objects: seq<DetectedObject>, id: string, labelText: string, blurred: bool)
    ensures var r := EditFirst(objects, id, labelText, blurred);
      && |r| == |objects| && ObjectIds(r) == ObjectIds(objects)
      && (forall k :: 0 <= k < |objects| && objects[k].id != id ==> r[k] == objects[k])
      && (forall k, j :: 0 <= j < k < |objects| && objects[j].id == id ==> r[k] == objects[k])
      && (forall k :: 0 <= k < |objects| && objects[k].id == id && r[k] != objects[k] ==>
            r[k] == objects[k].(labelText := labelText, isBlurred := blurred))
  {
    var r := EditFirst(objects, id, labelText, blurred);
    assert ObjectIds(r) == ObjectIds(objects);
  }

  /** Selecting the edited object again shows the new label and blur flag. */
  lemma EditShownOnReselect(objects: seq<DetectedObject>, id: string, labelText: string, blurred: bool)
    requires FirstIndex(ObjectIds(objects), id).Some?
    ensures var r := EditFirst(objects, id, labelText, blurred);
      var f := FirstIndex(ObjectIds(r), id);
      f == FirstIndex(ObjectIds(objects), id) && r[f.value].labelText == labelText && r[f.value].isBlurred == blurred
  {
    EditFirstChangesOnlyFirst(objects, id, labelText, blurred);
  }

  /** Repeating the same edit changes nothing more. */
  lemma EditFirstIdempotent(objects: seq<DetectedObject>, id: string, labelText: string, blurred: bool)
    ensures EditFirst(EditFirst(objects, id, labelText, blurred), id, labelText, blurred) == EditFirst(objects, id, labelText, blurred)
  {
    EditFirstChangesOnlyFirst(objects, id, labelText, blurred);
  }

  class Session {
    var selectedFile: Option<File>
    var detectedObjects: seq<DetectedObject>
    var selectedObjectId: Option<string>
    var finalDownloadUrl: Option<string>
    var uploadEnabled: bool
    var downloadEnabled: bool
    /** The texts of the metadata panel: fps, formatted duration, formatted size. */
    var metaFps: Option<real>
    var metaDuration: Option<string>
    var metaSize: Option<Format.Size>
    /** The rendered object list. */
    var items: seq<ListItem>
    /** None while the placeholder is shown. */
    var details: Option<Details>
    var status: Option<Status>
    /** Where the window was sent by a download. */
    var location: Option<string>

    constructor ()
      ensures selectedFile == None && detectedObjects == [] && selectedObjectId == None
      ensures finalDownloadUrl == None && !uploadEnabled && !downloadEnabled
      ensures metaFps == None && metaDuration == None && metaSize == None
      ensures items == [] && details == None && status == None && location == None
    {
      selectedFile, detectedObjects, selectedObjectId, finalDownloadUrl := None, [], None, None;
      uploadEnabled, downloadEnabled := false, false;
      metaFps, metaDuration, metaSize := None, None, None;
      items, details, status, location := [], None, None, None;
    }

    /** handleFileSelect: only a file whose MIME type starts with "video/" is taken; it enables upload. */
    method HandleFileSelect(file: File)
      modifies this`status, this`selectedFile, this`uploadEnabled
      ensures !IsVideoType(file.mimeType) ==>
        status == Some(Status(Error, NotAVideo)) && selectedFile == old(selectedFile) && uploadEnabled == old(uploadEnabled)
      ensures IsVideoType(file.mimeType) ==>
        selectedFile == Some(file) && uploadEnabled && status == Some(Status(Info, FileSelected(file.name)))
    {
      if !StartsWith(file.mimeType, "video/") {
        status := Some(Status(Error, NotAVideo));
        return;
      }
      selectedFile := Some(file);
      uploadEnabled := true;
      status := Some(Status(Info, FileSelected(file.name)));
    }

    /** handleUpload, with the server's answer (or the error it threw) as `answer`; the page itself builds
        MockResult in place of a reply. formatTime runs inside the try block, so a duration whose date is
        invalid (more than 8.64e15 ms from the epoch) fails the upload with toISOString's RangeError after
        the fps was shown. */
    method HandleUpload(answer: Result<UploadResult, string>)
      modifies this`uploadEnabled, this`status, this`metaFps, this`metaDuration, this`metaSize
      modifies this`detectedObjects, this`items
      ensures old(selectedFile).None? ==> unchanged(this)
      ensures old(selectedFile).Some? && answer.Err? ==>
        && status == Some(Status(Error, UploadFailed(answer.error))) && uploadEnabled
        && detectedObjects == old(detectedObjects) && items == old(items)
        && metaFps == old(metaFps) && metaDuration == old(metaDuration) && metaSize == old(metaSize)
      ensures old(selectedFile).Some? && answer.Ok? && !Format.ValidTime(answer.value.duration) ==>
        && status == Some(Status(Error, UploadFailed(InvalidTimeValue))) && uploadEnabled
        && detectedObjects == old(detectedObjects) && items == old(items)
        && metaFps == Some(answer.value.fps) && metaDuration == old(metaDuration) && metaSize == old(metaSize)
      ensures old(selectedFile).Some? && answer.Ok? && Format.ValidTime(answer.value.duration) ==>
        && status == Some(Status(Success, UploadDone)) && !uploadEnabled
        && detectedObjects == answer.value.objects && items == ListOf(answer.value.objects)
        && metaFps == Some(answer.value.fps)
        && metaDuration == Some(Format.FormatTime(answer.value.duration))
        && metaSize == Some(Format.FormatSize(answer.value.size))
    {
      if selectedFile.None? {
        return;
      }
      uploadEnabled := false;
      status := Some(Status(Info, Uploading));
      match answer {
        case Err(reason) =>
          status := Some(Status(Error, UploadFailed(reason)));
          uploadEnabled := true;
        case Ok(result) =>
          status := Some(Status(Success, UploadDone));
          metaFps := Some(result.fps);
          if !Format.ValidTime(result.duration) {
            status := Some(Status(Error, UploadFailed(InvalidTimeValue)));
            uploadEnabled := true;
            return;
          }
          metaDuration := Some(Format.FormatTime(result.duration));
          metaSize := Some(Format.FormatSize(result.size));
          detectedObjects := result.objects;
          items := ListOf(result.objects);
      }
    }

    /** handleObjectSelect: the id is recorded even when no object has it; otherwise exactly the list
        entries with that id become active and the details panel shows the first such object. */
    method HandleObjectSelect(id: string)
      modifies this`selectedObjectId, this`items, this`details
      ensures selectedObjectId == Some(id)
      ensures FirstIndex(ObjectIds(detectedObjects), id).None? ==> items == old(items) && details == old(details)
      ensures FirstIndex(ObjectIds(detectedObjects), id).Some? ==>
        && |items| == |old(items)|
        && (forall k :: 0 <= k < |items| ==>
              items[k].id == old(items)[k].id && items[k].labelText == old(items)[k].labelText
              && (items[k].active <==> items[k].id == id))
        && var obj := detectedObjects[FirstIndex(ObjectIds(detectedObjects), id).value];
           details == Some(Details(obj.labelText, obj.isBlurred))
    {
      selectedObjectId := Some(id);
      var found := FirstIndex(ObjectIds(detectedObjects), id);
      if found.None? {
        return;
      }
      var i := 0;
      while i < |items|
        invariant 0 <= i <= |items| && |items| == |old(items)| && selectedObjectId == Some(id)
        invariant forall k :: 0 <= k < i ==> items[k] == old(items)[k].(active := old(items)[k].id == id)
        invariant forall k :: i <= k < |items| ==> items[k] == old(items)[k]
      {
        items := items[i := items[i].(active := items[i].id == id)];
        i := i + 1;
      }
      var obj := detectedObjects[found.value];
      details := Some(Details(obj.labelText, obj.isBlurred));
    }

    /** handleDetailsChange, with the label input's and blur checkbox's current values. Nothing happens
        without a (truthy) selection; otherwise the first object with the selected id is edited, and the
        first list entry with that id shows the new label. */
    method HandleDetailsChange(labelText: string, blurred: bool)
      modifies this`detectedObjects, this`items
      ensures !Truthy(selectedObjectId) ==> detectedObjects == old(detectedObjects) && items == old(items)
      ensures Truthy(selectedObjectId) ==>
        detectedObjects == EditFirst(old(detectedObjects), selectedObjectId.value, labelText, blurred)
      ensures Truthy(selectedObjectId) && FirstIndex(ObjectIds(old(detectedObjects)), selectedObjectId.value).Some? ==>
        && |items| == |old(items)|
        && var g := FirstIndex(ItemIds(old(items)), selectedObjectId.value);
           (g.None? ==> items == old(items))
           && (g.Some? ==> items == old(items)[g.value := old(items)[g.value].(labelText := labelText)])
      ensures Truthy(selectedObjectId) && FirstIndex(ObjectIds(old(detectedObjects)), selectedObjectId.value).None? ==>
        items == old(items)
    {
      if !Truthy(selectedObjectId) {
        return;
      }
      var id := selectedObjectId.value;
      var found := FirstIndex(ObjectIds(detectedObjects), id);
      if found.Some? {
        var i := found.value;
        detectedObjects := detectedObjects[i := detectedObjects[i].(labelText := labelText, isBlurred := blurred)];
        var entry := FirstIndex(ItemIds(items), id);
        if entry.Some? {
          items := items[entry.value := items[entry.value].(labelText := labelText)];
        }
      }
    }

    /** handleExport: the mock always answers with the same download URL and enables the download button. */
    method HandleExport()
      modifies this`finalDownloadUrl, this`downloadEnabled, this`status
      ensures finalDownloadUrl == Some(MockDownloadUrl) && downloadEnabled
      ensures status == Some(Status(Success, ExportDone))
    {
      status := Some(Status(Info, Exporting));
      finalDownloadUrl := Some(MockDownloadUrl);
      status := Some(Status(Success, ExportDone));
      downloadEnabled := true;
    }

    /** handleDownload: navigates to the download URL when it is set and non-empty, reports an error otherwise. */
    method HandleDownload()
      modifies this`location, this`status
      ensures Truthy(finalDownloadUrl) ==> location == finalDownloadUrl && status == Some(Status(Info, DownloadStarting))
      ensures !Truthy(finalDownloadUrl) ==> location == old(location) && status == Some(Status(Error, InvalidDownloadUrl))
    {
      if Truthy(finalDownloadUrl) {
        location := finalDownloadUrl;
        status := Some(Status(Info, DownloadStarting));
      } else {
        status := Some(Status(Error, InvalidDownloadUrl));
      }
    }
  }
}
