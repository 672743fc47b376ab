/** The validation chain of the video upload route: the file part must be present, its
    name non-empty, and its extension one of mp4, avi and mov. */
module UploadValidation {
  import opened Common

  const Allowed: set<string> := {"mp4", "avi", "mov"}

  /** The three rejections, in the order the route tries them; each answers 400. */
  datatype UploadError = NoFileUploaded | EmptyFilename | UnsupportedFileType

  function ErrorMessage(e: UploadError): string
  {
    match e
    case NoFileUploaded => "No file uploaded"
    case EmptyFilename => "Empty filename"
    case UnsupportedFileType => "Unsupported file type"
  }

  /** The position of the last dot of `name`, or -1 when it has none. */
  function LastDot(name: string): (k: int)
    ensures -1 <= k < |name|
    ensures k >= 0 ==> name[k] == '.'
    ensures forall j :: k < j < |name| ==> name[j] != '.'
  {
    if name == [] then -1
    else if name[|name| - 1] == '.' then |name| - 1
    else LastDot(name[..|name| - 1])
  }

  /** `name.rsplit(".", -1)[-1]`: the text after the last dot, or the whole name when it has none. */
  function LastSegment(name: string): (r: string)
    ensures '.' !in r
    ensures |r| <= |name| && r == name[|name| - |r|..]
    ensures |r| < |name| ==> name[|name| - |r| - 1] == '.'
    ensures '.' !in name ==> r == name
  {
    var k := LastDot(name);
    name[k + 1..]
  }

  /** The facts LastSegment promises single out its result. */
  lemma LastSegmentUnique(name: string, t: string)
    requires '.' !in t
    requires |t| <= |name| && t == name[|name| - |t|..]
    requires |t| < |name| ==> name[|name| - |t| - 1] == '.'
    ensures LastSegment(name) == t
  {
  }

  /** The extension the route checks: the lowered text after the last dot (the whole name when there is no dot). */
  function Extension(name: string): (ext: string)
    ensures '.' !in ext
    ensures '.' !in name ==> ext == Lower(name)
    ensures '.' in name ==> var k := |name| - |ext| - 1;
      0 <= k && name[k] == '.' && '.' !in name[k + 1..] && ext == Lower(name[k + 1..])
  {
    Lower(LastSegment(name))
  }

  /** The ordered chain: the first failing check decides the error. `file` is None when the request has no "file" part. */
  function Validate(file: Option<string>): (r: Result<string, UploadError>)
    ensures r.Ok? ==> r.value in Allowed
  {
    match file
    case None => Err(NoFileUploaded)
    case Some(name) =>
      if name == "" then Err(EmptyFilename)
      else if Extension(name) !in Allowed then Err(UnsupportedFileType)
      else Ok(Extension(name))
  }

  /** Which error each request gets, and that an accepted name yields its extension. */
  lemma ValidateCases(file: Option<string>)
    ensures var r := Validate(file);
      && (r == Err(NoFileUploaded) <==> file.None?)
      && (r == Err(EmptyFilename) <==> file == Some(""))
      && (r == Err(UnsupportedFileType) <==> file.Some? && file.value != "" && Extension(file.value) !in Allowed)
      && (r.Ok? <==> file.Some? && file.value != "" && Extension(file.value) in Allowed)
      && (r.Ok? ==> r.value == Extension(file.value))
  {
  }

  /** An independent reading of the whitelist: a name passes exactly when its lowered form is "mp4", "avi" or "mov",
      or ends in a dot followed by one of them. */
  predicate NamedAsVideo(name: string)
  {
    var l := Lower(name);
    l in Allowed || (|l| >= 4 && l[|l| - 4] == '.' && l[|l| - 3..] in Allowed)
  }

  lemma ExtensionOfDottedSuffix(name: string, e: string)
    requires e in Allowed && EndsWith(Lower(name), "." + e)
    ensures Extension(name) == e
  {
    var n := |name|;
    var t := name[n - 3..];
    LowerSuffix(name, n - 3);
    assert Lower(name)[n - 4] == '.';
    assert name[n - 4] == '.';
    assert Lower(t) == e;
    assert '.' !in t by {
      forall i | 0 <= i < 3 ensures t[i] != '.' {
        assert Lower(t)[i] == e[i];
      }
    }
    LastSegmentUnique(name, t);
  }

  lemma ExtensionOfAllowedName(name: string, e: string)
    requires e in Allowed && Lower(name) == e
    ensures Extension(name) == e
  {
    assert '.' !in name by {
      forall i | 0 <= i < |name| ensures name[i] != '.' {
        assert Lower(name)[i] == e[i];
      }
    }
  }

  /** A dot at position k followed by the rest of the text makes the text end in "." + that rest. */
  lemma DotThenRest(l: string, k: nat, e: string)
    requires k < |l| && l[k] == '.' && l[k + 1..] == e
    ensures EndsWith(l, "." + e)
  {
    assert l[k..] == [l[k]] + l[k + 1..];
  }

  /** When the name has a dot, its lowered form ends in that dot followed by the extension. */
  lemma LoweredEndsWithExtension(name: string)
    requires '.' in name
    ensures EndsWith(Lower(name), "." + Extension(name))
  {
    var r, l, e := LastSegment(name), Lower(name), Extension(name);
    var k := |name| - |r| - 1;
    assert r == name[k + 1..];
    assert e == Lower(r);
    LowerSuffix(name, k + 1);
    assert l[k] == '.';
    DotThenRest(l, k, e);
  }

  lemma AcceptedNamedAsVideo(name: string)
    requires Extension(name) in Allowed
    ensures NamedAsVideo(name)
  {
    if '.' in name {
      LoweredEndsWithExtension(name);
      var l := Lower(name);
      assert |Extension(name)| == 3;
      assert l[|l| - 3..] == Extension(name);
    }
  }

  lemma NamedAsVideoAccepted(name: string)
    requires NamedAsVideo(name)
    ensures Extension(name) in Allowed
  {
    var l := Lower(name);
    if l in Allowed {
      ExtensionOfAllowedName(name, l);
    } else {
      var e := l[|l| - 3..];
      assert l[|l| - 4..] == "." + e;
      ExtensionOfDottedSuffix(name, e);
    }
  }

  lemma AcceptedIffNamedAsVideo(name: string)
    requires name != ""
    ensures Validate(Some(name)).Ok? <==> NamedAsVideo(name)
  {
    if Extension(name) in Allowed {
      AcceptedNamedAsVideo(name);
    }
    if NamedAsVideo(name) {
      NamedAsVideoAccepted(name);
    }
  }

  /** A name without any dot is judged as a whole: "MOV" passes although it carries no extension. */
  lemma DotlessNamePasses()
    ensures Validate(Some("MOV")) == Ok("mov")
  {
    assert Lower("MOV") == "mov" by {
      assert LowerChar('M') == 'm' && LowerChar('O') == 'o' && LowerChar('V') == 'v';
    }
    LastSegmentUnique("MOV", "MOV");
  }

  /** Only the text after the last dot counts. */
  lemma OnlyLastSegmentCounts()
    ensures Validate(Some("clip.mp4.txt")) == Err(UnsupportedFileType)
  {
    var name := "clip.mp4.txt";
    LastSegmentUnique(name, "txt");
    assert Lower("txt") == "txt";
  }

  /** A plain "clip.mp4" is accepted with extension "mp4". */
  lemma PlainMp4Accepted()
    ensures Validate(Some("clip.mp4")) == Ok("mp4")
  {
    LastSegmentUnique("clip.mp4", "mp4");
    assert Lower("mp4") == "mp4";
  }
}
