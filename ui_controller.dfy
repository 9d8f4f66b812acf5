/**
  The controller between the window and the strategies: it keeps the last
  captured image, the last recognised candidates and the list of users, and
  turns a save request into one call of the storage with the path
  `<folder>/<file name>` built by the standard naming scheme.

  The clock is a parameter of `SavePhoto`, and the user list read from disk
  is a parameter of `LoadUsers` (`None` when reading it fails).
 */
module UiController {
  import opened Wrappers
  import opened Text
  import opened StrategyBase
  import opened StandardNaming
  import opened TesseractOcr
  import opened ParseProperties

  /** The user list used when the stored one cannot be read. */
  const DefaultUsers: seq<string> := ["기본사용자"]

  /** The users the controller holds after loading from `stored`. */
  function UsersFrom(stored: Option<seq<string>>): seq<string> {
    stored.GetOr(DefaultUsers)
  }

  /** The relative path a photo is saved under: the month folder, a slash,
      and the generated file name. */
  function PhotoPath(user: string, content: string, t: Timestamp): string {
    GenerateFolderName(t) + "/" + GenerateFilename(user, content, t)
  }

  /** A seven-character folder and a file name, neither holding a slash,
      joined by one. */
  lemma SlashJoin(folder: string, name: string)
    requires |folder| == 7 && NoForbidden(folder) && name != [] && NoForbidden(name)
    ensures var p := folder + "/" + name;
      |p| > 8 && (forall i :: 0 <= i < |p| ==> (p[i] == '/' <==> i == 7))
      && p[..7] == folder && p[8..] == name
  {
    var p := folder + "/" + name;
    assert IsForbidden('/');
    forall i | 0 <= i < |p| ensures p[i] == '/' <==> i == 7 {
      if i < 7 {
        assert p[i] == folder[i] && folder[i] in folder;
      } else if i > 7 {
        assert p[i] == name[i - 8] && name[i - 8] in name;
      }
    }
  }

  /** The path has exactly one slash, right after the seven-character
      folder; cutting there gives back the folder and the file name, and the
      file name parses back to its fields exactly when `Parsable` holds: the
      sanitised user has no underscore and neither free field holds an
      extension. */
  lemma PhotoPathParts(user: string, content: string, t: Timestamp)
    ensures var p := PhotoPath(user, content, t);
      |p| > 8 && (forall i :: 0 <= i < |p| ==> (p[i] == '/' <==> i == 7))
      && p[..7] == GenerateFolderName(t) && p[8..] == GenerateFilename(user, content, t)
    ensures ParseFilename(PhotoPath(user, content, t)[8..]) == Some(Generated(user, content, t))
        <==> Parsable(user, content)
  {
    SlashJoin(GenerateFolderName(t), GenerateFilename(user, content, t));
    ParseGeneratedIff(user, content, t);
  }

  class UIController {
    const camera: CameraPort
    const ocr: Tesseract
    const storage: StoragePort
    var currentImage: Option<Image>
    var ocrResults: seq<OCRResult>
    var users: seq<string>

    /** Keeps the strategies, starts with no image and no candidates, opens
        the camera and loads the users. */
    constructor (camera: CameraPort, ocr: Tesseract, storage: StoragePort, stored: Option<seq<string>>)
      modifies camera`initialized
      ensures this.camera == camera && this.ocr == ocr && this.storage == storage
      ensures currentImage == None && ocrResults == []
      ensures camera.initialized == (old(camera.initialized) || camera.opens)
      ensures users == UsersFrom(stored)
    {
      this.camera := camera;
      this.ocr := ocr;
      this.storage := storage;
      currentImage := None;
      ocrResults := [];
      users := [];
      new;
      var _ := InitializeCamera();
      var _ := LoadUsers(stored);
    }

    /** `initialize_camera()`: whatever the camera answers. */
    method InitializeCamera() returns (ok: bool)
      modifies camera`initialized
      ensures ok == camera.opens && camera.initialized == (old(camera.initialized) || camera.opens)
    {
      ok := camera.Initialize();
    }

    /** `get_camera_frame()`: the camera's current frame, if any; none
        before the camera is initialised. */
    method GetCameraFrame() returns (frame: Option<Image>)
      ensures frame == if camera.initialized then camera.nextShot else None
    {
      frame := camera.GetFrame();
    }

    /** `capture_photo()`: a captured image replaces the current one; when
        the camera is not initialised or delivers nothing the current image
        stays. */
    method CapturePhoto() returns (ok: bool)
      modifies this`currentImage
      ensures ok <==> camera.initialized && camera.nextShot.Some?
      ensures ok ==> currentImage == camera.nextShot
      ensures !ok ==> currentImage == old(currentImage)
    {
      var image := camera.CapturePhoto();
      if image.Some? {
        currentImage := image;
        return true;
      }
      return false;
    }

    /** `analyze_image_ocr()`: without an image nothing is recognised and the
        previous candidates stay; otherwise the recogniser's ranked
        candidates for the image become the current ones. */
    method AnalyzeImageOcr() returns (results: seq<OCRResult>)
      modifies this`ocrResults
      ensures currentImage.None? ==> results == [] && ocrResults == old(ocrResults)
      ensures currentImage.Some? ==> results == ocr.Answer(currentImage.value) && ocrResults == results
      ensures Descending(results)
    {
      if currentImage.None? {
        return [];
      }
      ocrResults := ocr.ExtractText(currentImage.value);
      results := ocrResults;
    }

    /** `save_photo(user, ocr_content)` at time `now`: without an image
        nothing is stored and the answer is false; otherwise the image goes to
        the storage once, under the generated path, and the answer is whether
        the storage reports success (false when it raises). */
    method SavePhoto(user: string, content: string, now: Timestamp) returns (ok: bool)
      modifies storage`requests
      ensures currentImage.None? ==> !ok && storage.requests == old(storage.requests)
      ensures currentImage.Some? ==>
        storage.requests == old(storage.requests) + [(currentImage.value, PhotoPath(user, content, now))]
      ensures ok <==> currentImage.Some? && storage.answer.Some? && storage.answer.value.success
    {
      if currentImage.None? {
        return false;
      }
      var filename := GenerateFilename(user, content, now);
      var folderName := GenerateFolderName(now);
      var filePath := folderName + "/" + filename;
      var result := storage.SaveImage(currentImage.value, filePath);
      match result
      case None =>
        ok := false;
      case Some(r) =>
        ok := r.success;
    }

    /** `load_users()`: the stored list when it can be read, and then it is
        also the answer; otherwise the default list, with no answer. */
    method LoadUsers(stored: Option<seq<string>>) returns (loaded: Option<seq<string>>)
      modifies this`users
      ensures users == UsersFrom(stored)
      ensures loaded == stored
      ensures stored.None? ==> users == DefaultUsers
    {
      match stored
      case Some(list) =>
        users := list;
        loaded := Some(users);
      case None =>
        users := DefaultUsers;
        loaded := None;
    }
  }
}
