# HuiScan bookkeeping, modelled in Dafny

HuiScan is a Flask service for surface-defect inspection. Users upload
images in batches. Each image goes through a YOLO segmentation model,
either in-process or via a gRPC detection server. The results are stored
as `HSImage` / `HSDefect` rows. A socket handler runs the same pipeline
on live video frames. A PDF report shows example images per defect type.

This project models the deterministic bookkeeping around the detector:

- the records and the batch queries (`src/models.py`);
- the in-process dispatcher: FIFO queue, results map, events map, and the
  `detect(image_id)` entry point (`src/detect_utils.py`);
- the detection server's response builder and per-mask colour layer
  (`grpc_server.py`);
- `single-detect` and the `batch-detect` progress stream
  (`src/routes/detect_controller.py`);
- the live-frame handler and its per-session batch map
  (`src/routes/stream_controller.py`);
- both upload endpoints, the batch list with its date windows, and the
  batch detail (`src/routes/batch_controller.py`,
  `src/routes/image_import.py`);
- the report's image scaling and `y_position` pagination
  (`src/routes/report_controller.py`).

## How the model is built

There is one module per source file, plus shared modules:

- `Wrappers`: `Option`, `Result`.
- `Text`: `str(int)`, `os.path.splitext`, `rsplit`, `split('.')`, ASCII
  `lower`.
- `Numbers`: `int()` on a number.
- `Dates`: `datetime` as integer tuples with a one-second step.
- `Tables`: `DEFECT_NAMES` and `colors`, with Python list indexing.
- `Protocol`: the detector's reply.
- `Uploads`: the upload rule both endpoints share.
- `DefectRows`: the defect rows the controllers write.

The database is a value: three sequences of records in primary-key
order. Where the source loops and mutates, the model does too:

- methods with loops, each proved equal to a specification function;
- two classes for the module-level state the source mutates:
  `DetectUtils.Dispatcher` and `StreamController.VideoSessions`.

Its properties are proved as lemmas about those specification functions.

Several handlers depend on the outside world: the detector, the clock,
file reads, SHA-256, `os.urandom` and `str(float)`. They take these as
parameters, so every outcome is stated for every behaviour of those
inputs.

The table names `DEFECT_NAMES` is imported from `src/detect_utils.py` by
the controllers but not defined there. The model uses the four names at
`grpc_server.py:15`. The controllers call `detect(bytes)` and read
`.results` / `.processed_image`; that is the gRPC client's contract, so
the detector reply is an input. The allowed extensions are
`Config.ALLOWED_EXTENSIONS`.

Where the design intent and the code differ, the model follows the code,
and lemmas show the consequences:

- Task ids can collide (`DetectUtils.SameMillisecondStrandsFirstCaller`).
- A failing prediction kills the worker
  (`DetectUtils.CrashStrandsLaterCallers`).
- A detector exception ends a batch stream instead of being reported per
  image (`DetectController.RunMessages`, `DetectController.AbortIsFinal`).

## Model

| member | source | states |
|---|---|---|
| Models.GetBatchStatus | src/models.py:16-20 | `Unfinished` iff some image row of the batch has no detect time; `Finished` iff every image of the batch has one |
| Models.EmptyBatchIsFinished | src/models.py:13-20 | a batch without images is `Finished` and has size 0 |
| Models.BatchSizeCountsMembers | src/models.py:13-14 | the batch size equals the number of image rows pointing at the batch |
| Models.ImagesOf | src/models.py:11 | `batch.images` lists only rows of that batch, drawn from the table |
| Models.ImagesOfComplete | src/models.py:11 | every row of the batch is listed |
| Models.Undetected | src/models.py:17 | the detect-time filter keeps only rows without a detect time, never more than it was given |
| Models.UndetectedComplete | src/routes/detect_controller.py:107 | every row without a detect time is kept |
| Models.NoneUndetectedIff | src/routes/detect_controller.py:107-109 | the filter is empty iff every image has a detect time |
| Models.OpenImagesOfBatch | src/models.py:16-20 | a batch has an image still to detect exactly when some image row of that batch has no detect time |
| Models.GetImageStatus | src/routes/batch_controller.py:163 | `untouched` iff no detect time; `faulty` iff detected and has a defect row; `flawless` iff detected with none |
| Models.CountDefects | src/routes/batch_controller.py:163 | `image.defects.count() > 0` iff some defect row points at the image |
| Models.DefectsOf | src/models.py:38 | `image.defects` holds only rows of that image, as many as the count |
| Models.DefectsOfAppend | src/routes/detect_controller.py:56-64 | appending rows of one image appends them, in order, to that image's defect list |
| Models.FindBatch | src/routes/batch_controller.py:150-152 | a found batch is in the table with the id; none found means no row has it |
| Models.FindBy | src/routes/batch_controller.py:150 | the lookup both queries share: a result has the key and is in the table; none means no row has the key |
| Models.FindImage | src/routes/detect_controller.py:29-31 | a found image is in the table with the id; none found means no row has it |
| Models.UpdateImage | src/routes/detect_controller.py:53-54 | the update replaces exactly the rows with the image's id and keeps every other row |
| Models.KeyOf | src/routes/detect_controller.py:29 | an id argument is given a key iff it is a non-empty digit string, and then the key is its decimal value; other numeric spellings are admitted under "## Left out" |
| Models.KeyOfPrintedId | src/routes/detect_controller.py:29 | a printed id finds its key again |
| Tables.PyIndex | src/routes/detect_controller.py:58 | `xs[i]` succeeds iff `-len <= i < len`; a negative index counts from the end |
| Tables.TablesInLockStep | grpc_server.py:15-16 | both tables have 4 entries; a class id has a name iff it has a colour iff it is in -4..3 |
| Tables.ColorsNotBlack | grpc_server.py:16 | no class colour is black |
| GrpcServer.ColorLayer | grpc_server.py:37-41 | the colour layer has the mask's dimensions |
| GrpcServer.LayerOnMask | grpc_server.py:38-41 | a layer pixel is non-black iff the mask is positive there, and then it carries the class colour |
| GrpcServer.LayerHasImageDims | grpc_server.py:37-38 | a mask resized to the image gives a layer with the image's dimensions |
| GrpcServer.OverlayFailsIff | grpc_server.py:32-42 | compositing fails iff some mask has no box or an out-of-range class id |
| GrpcServer.OverlayErrPersists | grpc_server.py:32-42 | a failure at one mask fails the whole handler |
| GrpcServer.NoMasksNoOverlay | grpc_server.py:32-53 | with no masks the image comes back untouched |
| GrpcServer.Detect | grpc_server.py:23-54 | blends the masks in emission order; returns one result per box in box order with that box's data; fails iff some mask is not blendable |
| DefectRows.Rows | src/routes/detect_controller.py:56-63 | one row per result in result order, typed `DEFECT_NAMES[class_id]`; none iff some class id has no name |
| DefectRows.RowsBelongToImage | src/routes/stream_controller.py:156-165 | every added row points at the image and has one of the four names |
| DefectRows.SaveDefects | src/routes/stream_controller.py:156-165 | the row loop produces exactly `Rows` |
| DetectUtils.TaskIdCollidesIff | src/detect_utils.py:49 | two task ids are equal iff same image and same millisecond |
| DetectUtils.Dispatcher.constructor | src/detect_utils.py:19-21 | empty queue, results and events; worker alive |
| DetectUtils.Dispatcher.Submit | src/detect_utils.py:49-51 | appends the new entry to the queue tail; registers a fresh event under its id; nothing else changes; events only grow |
| DetectUtils.Dispatcher.WorkerStep | src/detect_utils.py:31-37 | serves the head task (FIFO); stores its result, then sets its event; an exception kills the worker; other entries unchanged |
| DetectUtils.Dispatcher.Claim | src/detect_utils.py:53 | returns and removes the caller's own result; nothing else changes |
| DetectUtils.Drain | src/detect_utils.py:31-37 | the worker serving a task list in queue order: every served task's id gets a result and its event is set; the worker survives iff no prediction raises, and a dead worker serves nothing |
| DetectUtils.DrainLastWins | src/detect_utils.py:31-36 | if the worker survives, the last task's own prediction is what stays under its id |
| DetectUtils.Dispatcher.AwaitEvent | src/detect_utils.py:31-37 | waiting drives the worker; when no earlier task shares the caller's id, the new results, set events and worker liveness are `Drain` of the queue, and the caller's event is set iff the worker survived, with its own prediction stored |
| DetectUtils.Dispatcher.DetectCall | src/detect_utils.py:45-98 | a missing image raises before submitting and leaves the whole dispatcher (queue, results, events, set events, worker) unchanged; otherwise the event map gains the caller's fresh event; without a colliding id it returns `FinishDetect` of the caller's own prediction while the worker lives and hangs otherwise; results, set events and liveness are `Drain` of the old queue plus the caller's task, minus the caller's popped result after a return, so a returned call leaves no result under its id (read-once) |
| DetectUtils.TwoCallersEachGetOwnResult | src/detect_utils.py:31-53 | two callers with distinct ids each get their own prediction; a second claim gets nothing |
| DetectUtils.SameMillisecondStrandsFirstCaller | src/detect_utils.py:49-53 | same image and millisecond: the first caller is never woken, the second gets the first's result, a result is left behind |
| DetectUtils.CrashStrandsLaterCallers | src/detect_utils.py:31-37 | after a raising prediction no later queued task is served, however long the worker runs |
| DetectUtils.DottedProcessedName | src/detect_utils.py:76-79 | the `split('.')` naming fails iff the name has no dot |
| DetectUtils.LocalDefects | src/detect_utils.py:82-92 | one row per box in order, typed `str(int(class))`, for the image |
| DetectUtils.FinishDetect | src/detect_utils.py:55-98 | empty or missing result: False and no writes; a non-empty result succeeds exactly when the mask loop completes (else `ValueError` from a mask whose shape differs from the image, raised before the naming), the path has a dot (else `IndexError`) and `cv2.imwrite` can write the dotted processed name (else `cv2.error` before the commit, nothing stored); on success `found` iff there are boxes, the row gets the dotted name and detect time, and the new defect rows are exactly `LocalDefects` of the first result's boxes (type `str(int(class))`, box text, confidence, image id) |
| DetectUtils.DottedAgreesOnOneDot | src/detect_utils.py:77-79 | for `stem.ext` the dotted naming equals the `splitext` naming |
| DetectUtils.DottedOnTwoDots | src/detect_utils.py:77-79 | for any `a.b.ext` whose fields have no dots, the `split('.')` naming gives `a_processed.b`: the extension is dropped |
| DetectUtils.TwoDotsUnwritableStoresNothing | src/detect_utils.py:77-96 | for `a.b.ext` with no writer for `a_processed.b`, a non-empty result fails before the commit, so nothing is stored |
| DetectUtils.SplitExtOnTwoDots | src/routes/detect_controller.py:47 | for the same names (non-empty first field, no slashes) the `splitext` naming gives `a.b_processed.ext`, so the two namings differ |
| Text.SplitExt | src/routes/detect_controller.py:47 | the two parts concatenate to the path; the extension is empty or starts at the `splitext` cut point |
| Text.SuffixedSplit | src/routes/batch_controller.py:54-55 | tagging the stem keeps the extension and lengthens the stem by the tag |
| Text.NatToStringInjective | src/detect_utils.py:49 | distinct integers print differently |
| Text.ParseNatToString | src/detect_utils.py:49 | parsing a printed integer gives it back |
| DetectController.ProcessedName | src/routes/detect_controller.py:47 | the processed name splits into the original stem + `_processed` and the original extension |
| DetectController.SingleDetect | src/routes/detect_controller.py:23-92 | 400 iff no id; 404 iff not found; 500 iff unreadable or the detector or a name lookup raises, with no change on any error; otherwise `hasDefect` iff results, row marked, one defect row per result, report lists old rows then new |
| DetectController.HandleSingleDetect | src/routes/detect_controller.py:23-92 | the handler computes `SingleDetect` |
| DetectController.RerunDuplicatesDefects | src/routes/detect_controller.py:53-64 | running it twice on one image stores the rows twice and reports both copies |
| DetectController.AfterFirstRun | src/routes/detect_controller.py:53-66 | after a run the id finds the marked row, and its defect list grew by the new rows |
| DetectController.ReportOfFound | src/routes/detect_controller.py:80-88 | a found, nameable response is reported with the stored rows then the new ones |
| DetectController.FindUpdated | src/routes/detect_controller.py:66 | after the update the id finds the updated row |
| DetectController.Run | src/routes/detect_controller.py:118-153 | at most one message per image |
| DetectController.RunMessages | src/routes/detect_controller.py:118-153 | one message per image in order until an abort; read error iff unreadable; `hasDefect` iff results; aborted iff a fatal image, which is the one after the last message; batches and row count unchanged |
| DetectController.StepFacts | src/routes/detect_controller.py:119-153 | one image of the loop: once aborted nothing changes; an abort adds no message and happens only on an image whose probe raised; otherwise exactly one message is appended, reporting on that image; batches and the number of image rows never change |
| DetectController.RunShape | src/routes/detect_controller.py:118-153 | the loop yields one message per image unless it aborts, and then the image after the last message is one whose probe raised; batches and the image count are kept |
| DetectController.RunReports | src/routes/detect_controller.py:118-153 | message k always reports on image k of the query, with a read error exactly when that file is unreadable |
| DetectController.AbortIsFinal | src/routes/detect_controller.py:132 | once an image raises, later images change nothing |
| DetectController.CheckedImagesAreDetected | src/routes/detect_controller.py:142-143 | an image with a success message has a detect time and processed name |
| DetectController.MarkedAfterUpdate | src/routes/detect_controller.py:142-143 | marking a row keeps marked ids marked and marks its own id |
| DetectController.Ids | src/routes/detect_controller.py:113-115 | the id list has one id per image, in query order |
| DetectController.BatchDetect | src/routes/detect_controller.py:95-157 | 400 iff no id; 404 iff no batch; "all detected" iff none undetected, with no change; otherwise the id list then the loop's messages, N+1 iff no abort |
| DetectController.Generate | src/routes/detect_controller.py:111-153 | the generator yields exactly the id list followed by `Run`'s messages and leaves `Run`'s tables |
| DetectController.DetectOne | src/routes/detect_controller.py:119-153 | one loop pass computes `Step` |
| StreamController.Label | src/routes/stream_controller.py:33-37 | the name below 4 (negatives from the end), `str(class_id)` from 4 up, an error below -4 |
| StreamController.FallbackIsNotAName | src/routes/stream_controller.py:33-37 | a fallback label is never one of the names |
| StreamController.FrameLists | src/routes/stream_controller.py:29-49 | one overlay box and one notification per result, in order; ids 1..n, type = label, severity "danger"; geometry `int(x1)`, `int(y1)`, `int(x2-x1)`, `int(y2-y1)` |
| StreamController.BuildLists | src/routes/stream_controller.py:29-49 | the loop computes `FrameLists` |
| StreamController.OnFrameKeepsConsistent | src/routes/stream_controller.py:61-99 | handling a frame keeps every session pointing at a stored batch and ids below the counters |
| StreamController.SessionBatchKeepsConsistent | src/routes/stream_controller.py:63-68 | the session's batch is recorded in the map and the state stays consistent |
| StreamController.PersistKeepsConsistent | src/routes/stream_controller.py:61-99 | storing a frame keeps the state consistent |
| StreamController.FrameEvents | src/routes/stream_controller.py:50-106 | one or two events, all to the caller; the processed frame comes first; the last is an error iff detection, labelling or a name lookup raised |
| StreamController.NoResultsStoresNothing | src/routes/stream_controller.py:61 | a frame without results stores nothing and leaves sessions alone |
| StreamController.PersistOutbox | src/routes/stream_controller.py:61-106 | storing a frame with results adds an error event for the sender, and nothing else, exactly when saving the defect rows raises on a class outside the name table |
| StreamController.SessionBatchCreatedOnce | src/routes/stream_controller.py:61-90 | the first stored frame creates and records a batch; later ones reuse it; the image row points at the session's batch |
| StreamController.SessionsOnlyGrow | src/routes/stream_controller.py:63-67 | sessions are never removed or re-pointed |
| StreamController.TwoFramesOneBatch | src/routes/stream_controller.py:63-68 | two stored frames of one session share one batch and create at most one |
| StreamController.UnnamedClassStoresImageOnly | src/routes/stream_controller.py:156-165 | a class id from 4 up: the image row is stored, no defect row, an error follows the processed frame |
| StreamController.FrameFileNames | src/routes/stream_controller.py:74-96 | thumbnail and processed names insert their tag before `.jpg` |
| StreamController.VideoSessions.constructor | src/routes/stream_controller.py:15 | a fresh process starts with no sessions |
| StreamController.VideoSessions.HandleFrame | src/routes/stream_controller.py:20-106 | the handler changes the state as `OnFrame` says |
| StreamController.VideoSessions.StoreFrame | src/routes/stream_controller.py:69-99 | files, image row and defect rows as `StoreSpec` says |
| Uploads.AllowedFileIff | src/routes/batch_controller.py:15-16 | a name is allowed iff it has a dot whose dot-free, lower-cased suffix is in the allowed set |
| Uploads.UpperCaseSuffixAllowed | src/routes/image_import.py:20-21 | for every stem and dot-free suffix, the name is allowed exactly when the same name with the suffix lower-cased is: case never matters |
| Uploads.NoDotRefused | src/routes/image_import.py:20-21 | every name without a dot is refused, even one that spells an extension |
| Uploads.LastSuffixCounts | src/routes/batch_controller.py:15-16 | for every stem, dots included, and every dot-free suffix: the name is allowed exactly when the lower-cased suffix is an allowed extension, so only the last suffix counts |
| Uploads.HiddenNameAllowedWithoutExtension | src/routes/image_import.py:20-21 | `.png` is allowed, yet `splitext` gives it no extension |
| Uploads.Positions | src/routes/image_import.py:41-54 | lists exactly the flagged positions |
| Uploads.PositionsIncreasing | src/routes/image_import.py:41 | the positions come in upload order |
| Uploads.PositionsAll | src/routes/image_import.py:62 | all positions are listed iff every flag is set |
| BatchController.KeptAt | src/routes/batch_controller.py:36-48 | the kept positions: present, allowed and openable files, and all of them |
| BatchController.KeptAtCounts | src/routes/batch_controller.py:73-84 | kept positions increase; all kept iff every file passes; none iff no file passes |
| BatchController.Entries | src/routes/batch_controller.py:35-71 | the k-th entry comes from the k-th kept file with the k-th id, its own clock reading, size columns set, no detect time |
| BatchController.CreateOutcome | src/routes/batch_controller.py:20-84 | 400 iff no part or no kept file, with rollback; 500 iff `image.save` fails on some kept file (no extension from `splitext`, or a format PIL cannot write), with nothing stored; 201 iff all kept and saved; 206 iff some kept, with counts; otherwise batch and entries committed together |
| BatchController.CreateBatch | src/routes/batch_controller.py:20-84 | the handler computes `CreateOutcome` |
| BatchController.CollectEntries | src/routes/batch_controller.py:35-71 | the loop ends by the exception exactly when some kept file fails to save; otherwise it computes `Entries` |
| BatchController.ExtensionlessUploadCrashes | src/routes/batch_controller.py:42-51 | any kept upload whose name `splitext` gives no extension makes the request a 500 that leaves the tables unchanged |
| BatchController.HiddenPngCrashes | src/routes/batch_controller.py:37-51 | an openable upload named `.png` passes `allowed_file` and then makes the request a 500 that stores nothing |
| BatchController.ThumbnailName | src/routes/batch_controller.py:54-55 | the thumbnail is `hash_nonce_thumbnail` + the upload's extension |
| BatchController.NoncesSeparateNames | src/routes/batch_controller.py:42-43 | different nonces give different stored names, even for identical content |
| BatchController.DateRange | src/routes/batch_controller.py:96-113 | no filter iff "undefined"; 400 on a parse failure or unknown mode; a missing date is a 500; windows are valid datetimes |
| BatchController.RangeContainsSelectedDate | src/routes/batch_controller.py:102-111 | the selected date lies in its year, month (below December) and day window |
| BatchController.YearRangeKeepsTimeOfDay | src/routes/batch_controller.py:103 | the year window starts at the selected time of day on January 1 |
| BatchController.DayRangeCutsLastSecond | src/routes/batch_controller.py:111 | the day window ends at 23:59:59 with the selected microsecond |
| BatchController.MonthRangeEnd | src/routes/batch_controller.py:105-108 | at midnight the month window ends at the month's last second |
| BatchController.MonthRangeSpillsIntoNextMonth | src/routes/batch_controller.py:106-108 | after midnight the month window reaches into the next month |
| BatchController.DecemberSelectsNothing | src/routes/batch_controller.py:107-108 | December's window ends before it starts and selects nothing (500 at the first second of year 1) |
| BatchController.Select | src/routes/batch_controller.py:115-121 | a batch is kept iff inside the window and passing the status filter |
| BatchController.SortBatches | src/routes/batch_controller.py:124-127 | the result is sorted by import time and a permutation of the input |
| BatchController.Insert | src/routes/batch_controller.py:124-127 | insertion keeps the order and adds exactly the one batch |
| BatchController.InsertKeepsTies | src/routes/batch_controller.py:124-127 | inserting a batch puts it behind the batches of its own import time and leaves every other time's batches in their order |
| BatchController.SortKeepsTies | src/routes/batch_controller.py:124-127 | for every import time, the sorted list holds the batches with that time in their input order (a stable sort) |
| BatchController.InOrderTotalPreorder | src/routes/batch_controller.py:124-127 | the import-time order is total and transitive |
| BatchController.Ordered | src/routes/batch_controller.py:124-127 | ascending for "time", descending for "-time", always a permutation |
| BatchController.ListRows | src/routes/batch_controller.py:131-139 | one row per batch with its status and size |
| BatchController.ListedExactly | src/routes/batch_controller.py:115-139 | the listed rows are exactly those of the selected batches |
| BatchController.RowsPermute | src/routes/batch_controller.py:124-139 | reordering the batches gives the same rows, each as often |
| BatchController.RowsInOrder | src/routes/batch_controller.py:124-139 | rows built from batches sorted by import time keep that order, ascending or descending |
| BatchController.GetBatchList | src/routes/batch_controller.py:88-141 | fails iff the window does; lists every selected batch and nothing else; the rows are, as a multiset, exactly those of the selection (each batch once per table row); sorted when asked |
| BatchController.GetBatchDetail | src/routes/batch_controller.py:145-171 | 400 iff no id; 404 iff no such batch; otherwise size, finished iff all detected, one row per image with its id and status |
| BatchController.ImageRows | src/routes/batch_controller.py:160-168 | one row per image in order, with its id and the three-way status |
| Dates.SubSecond | src/routes/batch_controller.py:108 | one second earlier is a valid, earlier datetime; fails only at the first second of year 1 |
| Dates.SubThenAddSecond | src/routes/batch_controller.py:108 | stepping back a second and forward again returns to the same moment |
| Dates.SubSecondFromFirstOfMonth | src/routes/batch_controller.py:108 | one second before the 1st is the last second of the previous month |
| Dates.InvertedRangeIsEmpty | src/routes/batch_controller.py:115 | a window whose end precedes its start contains nothing |
| Dates.NotAfterTotalPreorder | src/routes/batch_controller.py:115 | `<=` on datetimes is total and transitive |
| Dates.DayText | src/routes/detect_controller.py:77 | `%Y-%m-%d` starts with the unpadded year and ends with `-mm-dd`; it is 10 characters iff the year is at least 1000 |
| ImageImport.AdmittedAt | src/routes/image_import.py:41-54 | the admitted positions: present files with an allowed name, and all of them |
| ImageImport.AdmittedAtCounts | src/routes/image_import.py:56-62 | admitted positions increase; all admitted iff every file passes; none iff none does |
| ImageImport.Entries | src/routes/image_import.py:40-54 | the k-th entry comes from the k-th admitted file with the k-th id; no size, no detect time |
| ImageImport.ImportOutcome | src/routes/image_import.py:24-65 | 400 iff no part, empty list or nothing admitted; 201 iff all admitted; 206 with counts otherwise; batch and entries stored on success |
| ImageImport.CreateBatch | src/routes/image_import.py:24-65 | the handler computes `ImportOutcome` |
| ImageImport.CollectEntries | src/routes/image_import.py:40-54 | the loop computes `Entries` |
| ImageImport.SameContentSamePath | src/routes/image_import.py:43-45 | identical bytes with the same extension get the same path |
| ImageImport.FullPathStored | src/routes/image_import.py:45-50 | the row holds the folder-joined path, never the bare name |
| ImageImport.JoinPathShape | src/routes/image_import.py:45 | the joined path ends in the name; it is the name alone iff the name is absolute or the folder empty |
| ImageImport.UnreadableFileAdmitted | src/routes/image_import.py:42-54 | for any tables, environment and uploads: a present file with an allowed name whose bytes are no image is still stored, as the entry of its own position, and the request is not refused |
| ReportController.Scale | src/routes/report_controller.py:153 | for positive sizes the scale is in (0, 1] and keeps the image within 800 x 200 |
| ReportController.ScaledDims | src/routes/report_controller.py:150-155 | fails iff processed path, width or height is null or a size is 0; scaled width ≤ 800 and ≤ w, height ≤ 200 and ≤ h |
| ReportController.SmallImageKeepsSize | src/routes/report_controller.py:153-155 | an image within 800 x 200 keeps its size |
| ReportController.UnsizedImageFails | src/routes/report_controller.py:153 | a row without a width makes the report fail |
| ReportController.PlaceImage | src/routes/report_controller.py:141-163 | captions at `y`, image bottom at `y - 60 - h`, `y` lowered by 80 + h, or a new page at 1350 below 100 |
| ReportController.PlaceImages | src/routes/report_controller.py:139-163 | one picture per image; `y ≥ 100` after any image |
| ReportController.FirstCaption | src/routes/report_controller.py:139-142 | the first image's caption stands at the `y` the images start from |
| ReportController.PlaceImagesStep | src/routes/report_controller.py:139-163 | one more image extends the placement or fails |
| ReportController.PlaceImagesFailsIff | src/routes/report_controller.py:139-163 | placing fails iff some image cannot be scaled |
| ReportController.PicturesFitBox | src/routes/report_controller.py:153-156 | each picture has its row's scaled size, within 800 x 200 |
| ReportController.CursorMovesDown | src/routes/report_controller.py:157-163 | with positive sizes `y` never rises above 1350 |
| ReportController.Selected | src/routes/report_controller.py:137 | at most 5 images per type |
| ReportController.PlaceSection | src/routes/report_controller.py:116-163 | numbered heading at `y`; with no images `y` drops by 60 and no break is checked; with images the first caption stands 30 below the heading; one picture per selected image |
| ReportController.LayoutSpec | src/routes/report_controller.py:113-163 | one section per type, in the fixed order, with its title and picture count |
| ReportController.CursorStaysBelowTop | src/routes/report_controller.py:113-163 | with sized rows no heading or cursor is above 1350 |
| ReportController.SectionStaysBelowTop | src/routes/report_controller.py:116-163 | a section that starts at or below the fresh-page top leaves its title and the cursor at or below that top |
| ReportController.SectionCanDrawBelowPage | src/routes/report_controller.py:156-160 | a section starting low draws its first image below the page edge |
| ReportController.EmptyTypesRunOffThePage | src/routes/report_controller.py:129-134 | types without images lower `y` below 100 with no page break |
| ReportController.ThirdTypeNeverEmitted | src/routes/report_controller.py:113 | the third heading is no class name of `grpc_server.py:15`, so no class id maps to it; the other three headings are class names |
| ReportController.LayoutErrPersists | src/routes/report_controller.py:116-163 | a failing image fails the whole layout |
| ReportController.PlaceImagesErrPersists | src/routes/report_controller.py:139-163 | a failing image fails the whole type |
| ReportController.LayoutDefects | src/routes/report_controller.py:113-163 | the nested loops compute `LayoutSpec` over the four types |
| ReportController.PlaceSelected | src/routes/report_controller.py:139-163 | the image loop computes `PlaceImages` |

## Left out

- The YOLO model, `cv2` decode/encode/resize and the `addWeighted` blend
  are foreign numeric code. The prediction, the resized masks and the
  blend are parameters.
- Threads, blocking queues and `threading.Event` waits are concurrency.
  The dispatcher is modelled as sequential interleavings of submit,
  worker step and claim.
- SQLAlchemy sessions, flush, commit and rollback are modelled as values
  of the three tables.
- ImageImport.ImportOutcome: the flushed but uncommitted batch row of a
  rejected import is treated as not stored, since nothing commits it in
  the request.
- Flask and Socket.IO request handling, `url_for`, `emit` and HTTP
  streaming are out of scope. This includes the unseparated
  concatenation of streamed chunks.
- `src/rpc_client.py`, `serve()` and `src/routes/image_controller.py`
  are a thin transport or a field projection.
- File reads and writes, `os.makedirs` and PIL are modelled only through
  their results:
  - file readability is an input;
  - the image size is an input;
  - written files are a name list.
- `hashlib.sha256`, `os.urandom`, `datetime.now()` and `parse` are
  inputs.
- `str(float)` of box coordinates is an input `render`.
- In `create-batch`, whether PIL can write each opened image is an input
  per upload position. A failure of the thumbnail fallback `file.save`
  is not modelled.
- In the video handler, the clock reading for the day folder is left out
  with the folder itself. The three readings for the import, create and
  detect times are separate inputs.
- Floating point is modelled with exact reals.
- ReportController.Scale: `800 / w` etc. are exact here, so a
  rounding-boundary case of `int(w * scale)` may differ by one from
  IEEE arithmetic.
- matplotlib, reportlab and the report's charts are left out.
  `random.sample` is the first `min(n, 5)` rows of a caller-given order.
  The date filter of the report query is part of that caller-given input.
- `str.lower()` is modelled for ASCII only.
- Models.KeyOf: only plain digit strings find a row. SQLite also
  converts other numeric text when it compares an id with an INTEGER
  key: `+5`, ` 5`, `5 `, `5.0` and `5e0` all find row 5, where the
  model answers "not found". Non-numeric text finds no row, as in the
  model.
- The order of SQL ties under `ORDER BY import_time` is modelled as the
  input order (BatchController.SortKeepsTies); SQL itself leaves it open.
- `strftime` of the import time in list and detail rows is omitted. The
  rows carry the datetime.
- `defectId` in the single-detect report is omitted. Rows are listed in
  insertion order.
- ReportController.ScaledDims: bounds are stated only for positive
  sizes. A negative stored width or height is not modelled beyond
  "no failure".
- DetectUtils.Dispatcher.DetectCall: the outcome, and the tables after
  a return, are stated only when no queued task already has the
  caller's id. The colliding case is shown by
  DetectUtils.SameMillisecondStrandsFirstCaller.
- DetectController.Run: its own contract states only the message count.
  The per-message facts are in DetectController.RunMessages.
- `detect_utils.detect` draws masks onto the image before writing it. The
  drawing and the image file are left out. Whether the mask loop
  completes (every mask has the image's shape; otherwise the channel
  assignment raises `ValueError`) and whether `cv2.imwrite` can write the
  processed name are inputs of DetectUtils.FinishDetect.
