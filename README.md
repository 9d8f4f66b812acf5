# SightBox core in Dafny

SightBox is a desktop tool that photographs an item, reads text on it with
Tesseract, and saves the photo under a standard name. This project models the
three parts that carry its logic, and proves properties about them:

- **Standard naming** (`StandardNaming`, `NamingProperties`, `ParseProperties`).
  - File names have the form `03.물품사진_<yymmdd>_<user>_<content>.jpg`.
  - Month folders have the form `<yy>년 <mm>월`.
  - Also covered: the text sanitiser, name validation, and the parser that
    splits a name back into its fields.
- **Candidate ranking** (`TesseractOcr`, `RankingProperties`): how the
  recogniser's word table becomes the list of text candidates offered to the
  operator. Weak or blank words are dropped, one aggregate entry is added,
  and a stable sort puts the highest confidence first.
- **The UI controller** (`UiController`): the object between the window and
  the strategies. It holds the current image, the current candidates and the
  user list, and turns a save request into one storage call under
  `<folder>/<file name>`.

The value types and the strategy interfaces are in `StrategyBase`.
- The camera and the storage are small classes (`CameraPort`, `StoragePort`).
  What they answer is a field set by the caller. The storage also logs every
  request it receives.
- The recogniser is the `Tesseract` datatype. Its word table for an image is a
  function given to it.

Python's string operations used by the core are modelled in `Text`. These
are `strip`, `isspace` (the full set of code points Python treats as
whitespace), `join`, `replace(pat, '')`, `lower` and `endswith`.

The model follows the code as written; in particular:
- `parse_filename` deletes every `.jpg` and every `.JPG` in the name, not
  only a trailing one.
- Its prefix group `(.+?)` is lazy, so the shortest possible prefix wins.
- `.` does not match a newline.
- `$` also matches before a final newline.
- The ranking does not remove duplicate texts.
- A generated name does not parse back to its fields when the sanitised
  user holds an underscore or a free field holds `.jpg` or `.JPG`
  (`ParseGeneratedIff` proves exactly when it does).

## Model

| member | source | states |
|---|---|---|
| StandardNaming.Sanitize | strategies/camera/opencv_camera.py:312-331 | the result is never empty and is clean: no forbidden character, whitespace only as single plain spaces, none at either end |
| StandardNaming.RemoveForbidden | strategies/camera/opencv_camera.py:318-319 | the result holds no forbidden character, and keeps exactly the characters of the input that are allowed |
| StandardNaming.Collapse | strategies/camera/opencv_camera.py:321-322 | each maximal whitespace run becomes one space and every other character is kept; CollapseFacts, CollapseAppend and CollapseRun carry what this means |
| StandardNaming.CollapseFacts | strategies/camera/opencv_camera.py:321-322 | the result is single-spaced, empty only for empty input, starts with whitespace exactly when the input does, and adds no forbidden character |
| Text.SpaceRunFacts | strategies/camera/opencv_camera.py:321-322 | the run of whitespace one `\s+` match takes at the front: every character in it is whitespace, and the next one, if any, is not |
| Text.Strip | strategies/camera/opencv_camera.py:324-325 | `strip` leaves no whitespace at either end |
| Text.StripEmpty | strategies/camera/opencv_camera.py:324-329 | stripping gives the empty string exactly when every character is whitespace |
| Text.StripSlice | strategies/camera/opencv_camera.py:324-325 | the stripped text is one contiguous piece of the original, and everything cut off before and after it is whitespace |
| StandardNaming.StripCleans | strategies/camera/opencv_camera.py:318-325 | stripping a collapsed text free of forbidden characters leaves it clean |
| NamingProperties.CollapseAppend | strategies/camera/opencv_camera.py:321-322 | collapsing works piece by piece across a cut after a non-whitespace character |
| NamingProperties.CollapseRun | strategies/camera/opencv_camera.py:321-322 | a whitespace run of any length between two pieces becomes exactly one space |
| NamingProperties.SanitizeKeepsOneSpace | strategies/camera/opencv_camera.py:318-325 | `a  b` sanitises to `a b`: two spaces become one, not none |
| NamingProperties.SanitizeIdempotent | strategies/camera/opencv_camera.py:312-331 | sanitising a sanitised text changes nothing |
| NamingProperties.SanitizeKeepsClean | strategies/camera/opencv_camera.py:312-331 | a non-empty clean text is a fixed point of sanitising |
| NamingProperties.SanitizeKeepsVisible | strategies/camera/opencv_camera.py:314-329 | sanitising keeps every character that is neither forbidden nor whitespace, in order; with none it gives `Unknown` |
| NamingProperties.SanitizeDeletesTab | strategies/camera/opencv_camera.py:318-322 | a tab between two letters is deleted as a control character before whitespace is collapsed: `a\tb` becomes `ab` |
| StandardNaming.DateCode | strategies/camera/opencv_camera.py:288 | six digits that read back as the year within its century, the month and the day |
| StandardNaming.GenerateFolderName | strategies/camera/opencv_camera.py:303-310 | seven characters: the two-digit year, `년 `, the two-digit month, `월`; no forbidden character |
| StandardNaming.ContentField | strategies/camera/opencv_camera.py:292-296 | the sanitised content cut to its first 50 characters, cut after sanitising; non-empty, single-spaced, free of forbidden characters |
| NamingProperties.TruncationCanEndInSpace | strategies/camera/opencv_camera.py:294-296 | when the 50th sanitised character is a space, the content field ends in a space and is not a fixed point of sanitising |
| StandardNaming.GenerateFilename | strategies/camera/opencv_camera.py:280-301 | the name is 20 characters longer than its user and content fields, holds no forbidden character and ends in `.jpg` |
| NamingProperties.GenerateExample | strategies/camera/opencv_camera.py:280-301 | user `김철수`, content `볼트 M8` on 2024-12-05 give `03.물품사진_241205_김철수_볼트 M8.jpg` |
| StandardNaming.ValidateFilename | strategies/camera/opencv_camera.py:333-351 | a name is accepted exactly when it is non-empty, at most 255 characters, free of forbidden characters and ends in `.jpg` in any letter case |
| NamingProperties.GeneratedNameValidIff | strategies/camera/opencv_camera.py:280-351 | a generated name validates exactly when its user and content fields total at most 235 characters |
| NamingProperties.GeneratedNameValid | strategies/camera/opencv_camera.py:280-351 | a sanitised user of at most 185 characters always gives a valid name |
| NamingProperties.ValidateAcceptsUpperCase | strategies/camera/opencv_camera.py:347-351 | a name ending in `.JPG` validates, though generation never writes that ending |
| NamingProperties.ValidateExamples | strategies/camera/opencv_camera.py:333-351 | a name with `?` and a 256-character name are refused; `IMG_01.JPG` and `a.Jpg` are accepted |
| StandardNaming.UserRun | strategies/camera/opencv_camera.py:360 | `([^_]+)` taken greedily: the longest underscore-free prefix, followed by `_` or the end |
| StandardNaming.ParseFilename | strategies/camera/opencv_camera.py:353-376 | the parse of the stem; ParseFilenameSound and ParseFilenameExact characterise it as the matching with the shortest prefix, and none exactly when there is no matching |
| ParseProperties.MatchAtComplete | strategies/camera/opencv_camera.py:360-371 | every way of matching the pattern is found when the prefix length is tried |
| ParseProperties.MatchAtSound | strategies/camera/opencv_camera.py:360-371 | what one prefix length yields is a way of matching the pattern, with that prefix length |
| ParseProperties.SplitUnique | strategies/camera/opencv_camera.py:360 | two ways of matching with the same prefix length are the same |
| ParseProperties.SearchSound | strategies/camera/opencv_camera.py:360-361 | the lazy search returns a way of matching with the shortest prefix from where it starts |
| ParseProperties.SearchComplete | strategies/camera/opencv_camera.py:360-361 | the lazy search finds something whenever a way of matching exists from where it starts |
| ParseProperties.ParseFilenameSound | strategies/camera/opencv_camera.py:353-376 | a parse is a way of matching the stem, with the shortest prefix; there is no parse exactly when no way of matching exists |
| ParseProperties.ParseFilenameExact | strategies/camera/opencv_camera.py:353-376 | the parse is `c` exactly when `c` matches the stem and no match has a shorter prefix |
| Text.DeleteAll | strategies/camera/opencv_camera.py:357 | `replace(pat, '')` never lengthens the text; DeleteAllFields, StemFields and StemKeepsFields say what is left |
| StandardNaming.Stem | strategies/camera/opencv_camera.py:357 | every `.jpg`, then every `.JPG`, deleted wherever it occurs; StemFields, StemInnerExtension and StemKeepsFields say what is left |
| ParseProperties.DeleteAllFields | strategies/camera/opencv_camera.py:357 | deleting an extension works field by field across the underscores |
| ParseProperties.StemFields | strategies/camera/opencv_camera.py:357 | removing the extensions from a joined name with one trailing `.jpg` leaves the joined fields |
| ParseProperties.ParseFields | strategies/camera/opencv_camera.py:353-371 | a name joined from an underscore-free prefix and well-formed fields, plus `.jpg`, parses back to those fields |
| ParseProperties.StemInnerExtension | strategies/camera/opencv_camera.py:357 | a `.jpg` ending the user field is deleted as well as the trailing one |
| ParseProperties.StemKeepsFields | strategies/camera/opencv_camera.py:357 | deleting the extensions from a name built from fields leaves it as long as the fields joined only when no field holds `.jpg` or `.JPG` |
| ParseProperties.ParseInnerExtension | strategies/camera/opencv_camera.py:353-371 | a name whose user field carries an extension parses as if it had none |
| ParseProperties.ParseInnerExtensionExample | strategies/camera/opencv_camera.py:353-371 | `p_123456_u.jpg_c.jpg` parses to prefix `p`, date `123456`, user `u`, content `c` |
| ParseProperties.ParseGenerated | strategies/camera/opencv_camera.py:280-371 | a generated name parses back to its prefix, date code, sanitised user and content field, when the user has no underscore and neither field contains an extension |
| ParseProperties.ParseGeneratedIff | strategies/camera/opencv_camera.py:280-376 | a generated name parses back to its own fields exactly when the sanitised user has no underscore and neither field holds `.jpg` or `.JPG` |
| StrategyBase.NewOCRResult | strategies/base/camera_strategy.py:78-81 | the text is stored stripped, the confidence as given, a missing box as the empty list |
| StrategyBase.NewOCRResultDefaults | strategies/base/camera_strategy.py:78 | the confidence defaults to 0.0 and the box to the empty list |
| StrategyBase.NewStorageResult | strategies/base/camera_strategy.py:145-150 | success, path and message are stored as given; a missing metadata mapping becomes the empty one |
| StrategyBase.NewStorageResultDefaults | strategies/base/camera_strategy.py:145-150 | path, message and metadata default to absent, absent and empty |
| StrategyBase.DescribeStorage | strategies/base/camera_strategy.py:152-156 | the success tag exactly for a success, the failure tag otherwise, then the path or the error message |
| StrategyBase.FilenameComponentsDefaults | strategies/base/camera_strategy.py:232-233 | every field defaults to empty, the extension to `jpg` |
| StrategyBase.DescribeComponents | strategies/base/camera_strategy.py:240-241 | the labelled prefix, date, user and content in that order, 35 characters longer than the four fields |
| StrategyBase.DescribeIgnoresExtension | strategies/base/camera_strategy.py:240-241 | the extension plays no part in the description |
| StrategyBase.CameraPort.Initialize | strategies/camera/opencv_camera.py:19-35 | the camera reports whether it opened; it becomes initialised when it opens and otherwise keeps its state |
| StrategyBase.CameraPort.GetFrame | strategies/camera/opencv_camera.py:37-45 | no frame before the camera is initialised, otherwise the frame it delivers |
| StrategyBase.CameraPort.CapturePhoto | strategies/camera/opencv_camera.py:47-49 | a capture gives what a frame read gives |
| StrategyBase.StoragePort.SaveImage | strategies/base/camera_strategy.py:163-175 | the request is appended to the storage's log; the answer is the storage's |
| TesseractOcr.WordResult | strategies/camera/opencv_camera.py:111-116 | a kept word becomes a candidate with its stripped, trimmed text, its confidence and its box `[left, top, width, height]` |
| TesseractOcr.RankWords | strategies/camera/opencv_camera.py:106-128 | the loop, the aggregate and the sort compute exactly `Rank(words)` |
| TesseractOcr.Tesseract.Answer | strategies/camera/opencv_camera.py:90-132 | nothing when Tesseract is missing or raises, otherwise the ranked candidates of its word table, sorted highest first |
| TesseractOcr.Tesseract.ExtractText | strategies/camera/opencv_camera.py:90-132 | returns exactly `Answer(image)` |
| TesseractOcr.InsertDescending | strategies/camera/opencv_camera.py:126 | inserting into a descending list keeps it descending |
| TesseractOcr.InsertPermutes | strategies/camera/opencv_camera.py:126 | inserting adds exactly the new entry |
| TesseractOcr.InsertStable | strategies/camera/opencv_camera.py:126 | inserting keeps the new entry before every entry of equal confidence |
| TesseractOcr.SortByConfidence | strategies/camera/opencv_camera.py:126 | `sort(key=confidence, reverse=True)`; SortFacts proves it descending, a permutation and stable |
| TesseractOcr.SortFacts | strategies/camera/opencv_camera.py:126 | the sort is descending, a permutation, and keeps the order of equal confidences |
| TesseractOcr.Rank | strategies/camera/opencv_camera.py:110-126 | the kept words with the aggregate in front, sorted; RankLength, RankSorted and RankEntries characterise it |
| TesseractOcr.RankDescending | strategies/base/camera_strategy.py:96-97 | the candidates are sorted by confidence, highest first |
| RankingProperties.KeptEmpty | strategies/camera/opencv_camera.py:110-118 | no word is kept exactly when none has a non-blank text and a confidence above 30 |
| RankingProperties.KeptEntries | strategies/camera/opencv_camera.py:110-118 | every kept result has a non-empty trimmed text and a confidence above 30 |
| RankingProperties.AggregateText | strategies/camera/opencv_camera.py:120-123 | the aggregate's text is the kept texts joined by single spaces, trimmed, with no box |
| RankingProperties.OverallAbove | strategies/camera/opencv_camera.py:114-122 | the mean confidence of results that are all above 30 is above 30 |
| RankingProperties.AggregateConfidence | strategies/camera/opencv_camera.py:122 | the aggregate's confidence, the mean of the kept ones, is above 30 |
| RankingProperties.RankLength | strategies/camera/opencv_camera.py:110-126 | the ranking is empty exactly when no word passes, otherwise one longer than the kept words |
| RankingProperties.RankSorted | strategies/camera/opencv_camera.py:120-126 | the ranking is descending, holds exactly the aggregate and the kept results, and keeps equal confidences in their order before sorting |
| RankingProperties.RankEntries | strategies/camera/opencv_camera.py:110-126 | every candidate has a non-empty trimmed text and a confidence above 30 |
| RankingProperties.AggregateLeadsTies | strategies/camera/opencv_camera.py:123-126 | among the candidates with the aggregate's confidence, the aggregate comes first |
| RankingProperties.RankExample | strategies/camera/opencv_camera.py:106-126 | words `ABC123` 92, `wrench` 45 and a blank one at 99 rank as `ABC123` 92, `ABC123 wrench` 68.5, `wrench` 45 |
| UiController.PhotoPath | controllers/ui_controller.py:66-73 | the month folder, a slash and the generated name from one timestamp; PhotoPathParts states its parts |
| UiController.PhotoPathParts | controllers/ui_controller.py:65-73 | the path has one slash, after the seven-character folder; the two sides are the folder and the file name, and the file name parses back to its fields exactly when the sanitised user has no underscore and neither field holds `.jpg` or `.JPG` |
| UiController.UIController.constructor | controllers/ui_controller.py:18-33 | no image and no candidates yet, the camera initialised when it opens, the users loaded |
| UiController.UIController.InitializeCamera | controllers/ui_controller.py:35-37 | whatever the camera answers |
| UiController.UIController.GetCameraFrame | controllers/ui_controller.py:39-41 | the camera's current frame, none before it is initialised |
| UiController.UIController.CapturePhoto | controllers/ui_controller.py:43-49 | a captured image becomes current and the answer is true; when the camera is not initialised or delivers nothing the current image stays and the answer is false |
| UiController.UIController.AnalyzeImageOcr | controllers/ui_controller.py:51-57 | without an image, nothing and the old candidates stay; otherwise the recogniser's ranked candidates become current; either way sorted |
| UiController.UIController.SavePhoto | controllers/ui_controller.py:59-82 | without an image nothing is stored and the answer is false; otherwise one request under the generated path, and true exactly when the storage reports success |
| UiController.UIController.LoadUsers | controllers/ui_controller.py:84-92 | the stored list, returned too, when it can be read; otherwise `["기본사용자"]` and no answer |

## Left out

- The camera device (`OpenCVCamera`) is replaced by `CameraPort`, whose answers are fields. Release, connection and resolution queries are not called by the controller.
- The abstract strategy classes become concrete ports. The controller's filename strategy is always the standard naming scheme, its only implementation.
- Tesseract itself is not modelled: `image_to_data`, image preprocessing, `is_available` and `get_supported_languages`. The availability is a flag, and the word table is a function of the image that answers `None` when the call raises.
- Converting confidence strings with `float`, and floating-point rounding, are not modelled: confidences are exact reals. The two-decimal `__str__` of `OCRResult` is left out for the same reason.
- The clock (`datetime.now`) is not modelled: the timestamp is a parameter. Days are any of 1 to 31, whatever the month.
- `utils/file_utils.py` is not part of this model: the user list it reads arrives as a parameter of `LoadUsers`, `None` when reading raises.
- The Dropbox storage, the main window and the program entry point are not part of this model.
- Printing the error messages is left out.
- `\d` is modelled as the ASCII digits, and `lower` as lower-casing ASCII letters. Python accepts other Unicode digits and letters too.
- The `metadata` parameter of `generate_filename` is left out, because the code never reads it. The storage result's metadata maps strings to strings, since values of arbitrary type cannot be modelled.
- Python's `list.sort` is specified by a stable insertion sort (`SortByConfidence`) rather than timsort. Both give the same result, the unique stable descending order; only the result is modelled.
- StrategyBase.CameraPort.Initialize: when an already initialised camera fails to open again, the source has replaced its capture device, so later reads deliver nothing; the model keeps delivering the earlier frame.
- NamingProperties.GeneratedNameValid: generated names are not always valid. A user and content totalling more than 235 characters give a name over 255 characters, which validation refuses.
