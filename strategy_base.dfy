/**
  The record types shared by the strategies (OCR results, storage results,
  file name components) and the two collaborator interfaces the controller
  drives without looking inside: the camera and the storage.

  Python's abstract base classes have no logic. Here each interface is a
  small class that answers what its environment has scripted (the frame the
  device delivers, the outcome of a save) and, where the controller's
  contract needs it, keeps a log of the requests it received.
 */
module StrategyBase {
  import opened Wrappers
  import opened Text

  /** A captured frame: a pixel buffer the core never looks into. */
  datatype Image = Image(pixels: seq<int>)

  /** One recognised piece of text. */
  datatype OCRResult = OCRResult(text: string, confidence: real, bbox: seq<int>)

  /** `OCRResult(text, confidence=0.0, bbox=None)`: the text is stored stripped
      of surrounding whitespace, a missing box becomes the empty list. */
  function NewOCRResult(text: string, confidence: real := 0.0, bbox: Option<seq<int>> := None): (r: OCRResult)
    ensures r.text == Strip(text)
    ensures r.text != [] ==> !IsSpace(r.text[0]) && !IsSpace(r.text[|r.text| - 1])
    ensures r.confidence == confidence
    ensures r.bbox == if bbox.Some? then bbox.value else []
  {
    OCRResult(Strip(text), confidence, bbox.GetOr([]))
  }

  /** An argument left out gives confidence 0.0 and an empty box. */
  lemma NewOCRResultDefaults(text: string)
    ensures NewOCRResult(text) == OCRResult(Strip(text), 0.0, [])
  {
  }

  /** The outcome of a save. */
  datatype StorageResult = StorageResult(
    success: bool,
    filePath: Option<string>,
    errorMessage: Option<string>,
    metadata: map<string, string>)

  /** `StorageResult(success, file_path=None, error_message=None, metadata=None)`:
      a missing metadata mapping becomes the empty one. */
  function NewStorageResult(success: bool, filePath: Option<string> := None,
                            errorMessage: Option<string> := None,
                            metadata: Option<map<string, string>> := None): (r: StorageResult)
    ensures r.success == success && r.filePath == filePath && r.errorMessage == errorMessage
    ensures r.metadata == if metadata.Some? then metadata.value else map[]
  {
    StorageResult(success, filePath, errorMessage, metadata.GetOr(map[]))
  }

  lemma NewStorageResultDefaults(success: bool)
    ensures NewStorageResult(success) == StorageResult(success, None, None, map[])
  {
  }

  const SuccessTag: string := "저장 성공: "
  const FailureTag: string := "저장 실패: "

  /** How Python formats an optional string inside an f-string. */
  function Show(o: Option<string>): string {
    match o
    case Some(v) => v
    case None => "None"
  }

  /** `str(StorageResult)`: a tag saying which way the save went, then the path
      on success or the error message on failure. */
  function DescribeStorage(r: StorageResult): (s: string)
    ensures |s| >= |SuccessTag| == |FailureTag|
    ensures s[..|SuccessTag|] == SuccessTag <==> r.success
    ensures s[..|FailureTag|] == FailureTag <==> !r.success
    ensures s[|SuccessTag|..] == Show(if r.success then r.filePath else r.errorMessage)
  {
    assert SuccessTag[3] != FailureTag[3];
    if r.success then SuccessTag + Show(r.filePath) else FailureTag + Show(r.errorMessage)
  }

  /** The pieces of a file name; every field has a default. */
  datatype FilenameComponents = FilenameComponents(
    prefix: string := "",
    dateStr: string := "",
    user: string := "",
    content: string := "",
    extension: string := "jpg")

  lemma FilenameComponentsDefaults()
    ensures FilenameComponents() == FilenameComponents("", "", "", "", "jpg")
  {
  }

  /** `str(FilenameComponents)`: prefix, date, user and content in that order,
      each behind its label; the extension is not shown. */
  function DescribeComponents(c: FilenameComponents): (s: string)
    ensures |s| == 35 + |c.prefix| + |c.dateStr| + |c.user| + |c.content|
    ensures s[..8 + |c.prefix|] == "Prefix: " + c.prefix
    ensures s[8 + |c.prefix|..16 + |c.prefix| + |c.dateStr|] == ", Date: " + c.dateStr
    ensures s[16 + |c.prefix| + |c.dateStr|..24 + |c.prefix| + |c.dateStr| + |c.user|] == ", User: " + c.user
    ensures s[|s| - 11 - |c.content|..] == ", Content: " + c.content
  {
    "Prefix: " + c.prefix + ", Date: " + c.dateStr + ", User: " + c.user + ", Content: " + c.content
  }

  /** Two components that differ only in their extension read the same. */
  lemma DescribeIgnoresExtension(c: FilenameComponents, e: string)
    ensures DescribeComponents(c.(extension := e)) == DescribeComponents(c)
  {
  }

  /** The camera as the controller sees it. */
  class CameraPort {
    /** Whether the device opens when asked to initialise. */
    const opens: bool
    var initialized: bool
    /** The frame the device delivers on its next read, if any. */
    var nextShot: Option<Image>

    constructor (opens: bool, shot: Option<Image>)
      ensures this.opens == opens && !initialized && nextShot == shot
    {
      this.opens := opens;
      initialized := false;
      nextShot := shot;
    }

    /** `initialize()`: reports whether the device opened; a device that
        opens becomes initialised, one that does not keeps its state. */
    method Initialize() returns (ok: bool)
      modifies this`initialized
      ensures ok == opens && initialized == (old(initialized) || opens)
    {
      if opens {
        initialized := true;
      }
      ok := opens;
    }

    /** `get_frame()`: nothing before the device is initialised, otherwise
        whatever it delivers. */
    method GetFrame() returns (frame: Option<Image>)
      ensures !initialized ==> frame == None
      ensures initialized ==> frame == nextShot
    {
      if !initialized {
        return None;
      }
      frame := nextShot;
    }

    /** `capture_photo()`: a capture is a frame read. */
    method CapturePhoto() returns (photo: Option<Image>)
      ensures !initialized ==> photo == None
      ensures initialized ==> photo == nextShot
    {
      photo := GetFrame();
    }
  }

  /** The storage as the controller sees it. */
  class StoragePort {
    /** What `save_image` answers next; `None` when it raises. */
    var answer: Option<StorageResult>
    /** Every `(image, relative path)` pair handed to `save_image`, in order. */
    var requests: seq<(Image, string)>

    constructor (answer: Option<StorageResult>)
      ensures this.answer == answer && requests == []
    {
      this.answer := answer;
      requests := [];
    }

    /** `save_image(image, file_path)`. */
    method SaveImage(image: Image, filePath: string) returns (result: Option<StorageResult>)
      modifies this`requests
      ensures requests == old(requests) + [(image, filePath)]
      ensures result == answer
    {
      requests := requests + [(image, filePath)];
      result := answer;
    }
  }
}
