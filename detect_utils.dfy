/**
 * The in-process detection dispatcher: a FIFO `task_queue`, a `results`
 * map and an `events` map keyed by a task id, one worker that serves the
 * queue, and the `detect(image_id)` entry point that submits, waits and
 * then writes the outcome back to the image record.
 *
 * Threads are modelled as sequential interleavings of `Submit`,
 * `WorkerStep` and `Claim`. A `threading.Event` is a number; `fired`
 * holds the events that have been set. A caller waits on the event it
 * looked up right after enqueueing, which `Submit` returns.
 */
module DetectUtils {
  import opened Wrappers
  import opened Text
  import opened Protocol
  import opened Dates
  import opened Models
  import opened DefectRows

  /** `(task_id, image_path)` as put on the queue. */
  datatype Task = Task(id: string, path: string)

  /** One YOLO `Results` object as `detect` reads it: the boxes with their class ids. */
  datatype YoloResult = YoloResult(boxes: seq<Det>)

  /** `model.predict(...)`: the result list, or an exception that escapes the worker loop. */
  datatype Prediction = Predicted(results: seq<YoloResult>) | Raised

  /** `f"task-{image_id}-{int(time.time() * 1000)}"`. */
  function TaskId(imageId: nat, ms: nat): string
  {
    "task-" + NatToString(imageId) + "-" + NatToString(ms)
  }

  /** Two submits get the same id exactly when they are for the same image in the same millisecond. */
  lemma TaskIdCollidesIff(a: nat, m: nat, b: nat, n: nat)
    ensures TaskId(a, m) == TaskId(b, n) <==> a == b && m == n
  {
    if TaskId(a, m) == TaskId(b, n) {
      var sa, sm, sb, sn := NatToString(a), NatToString(m), NatToString(b), NatToString(n);
      assert TaskId(a, m)[5..] == sa + "-" + sm;
      assert TaskId(b, n)[5..] == sb + "-" + sn;
      DashSplitUnique(sa, sm, sb, sn);
      NatToStringInjective(a, b);
      NatToStringInjective(m, n);
    }
  }

  lemma DashSplitUnique(x: string, y: string, u: string, v: string)
    requires AllDigits(x) && AllDigits(u)
    requires x + "-" + y == u + "-" + v
    ensures x == u && y == v
  {
    var s := x + "-" + y;
    IndexAfterDigits(x, '-', y);
    IndexAfterDigits(u, '-', v);
    assert x == s[..|x|] == u;
    assert y == s[|x| + 1..] == v;
  }

  /** What the worker leaves behind: the results map, the Events set so far, and whether it still runs. */
  datatype WorkerState = WorkerState(results: map<string, seq<YoloResult>>, fired: set<nat>, alive: bool)

  /**
   * `detection_worker` serving `tasks` in queue order from state `s`,
   * setting the Event registered in `events` under each task id: every
   * prediction is stored before its Event is set, and the first raise
   * ends the worker, so no later task is served.
   */
  function Drain(s: WorkerState, tasks: seq<Task>, events: map<string, nat>, predict: string -> Prediction): (r: WorkerState)
    requires forall t :: t in tasks ==> t.id in events
    ensures s.results.Keys <= r.results.Keys && s.fired <= r.fired
    ensures r.alive <==> s.alive && forall k :: 0 <= k < |tasks| ==> predict(tasks[k].path).Predicted?
    ensures r.alive ==> forall k :: 0 <= k < |tasks| ==> tasks[k].id in r.results && events[tasks[k].id] in r.fired
    ensures !s.alive ==> r == s
    decreases |tasks|
  {
    if !s.alive || tasks == [] then s
    else
      match predict(tasks[0].path)
      case Raised => s.(alive := false)
      case Predicted(p) =>
        var r := Drain(WorkerState(s.results[tasks[0].id := p], s.fired + {events[tasks[0].id]}, true), tasks[1..], events, predict);
        assert forall k :: 1 <= k < |tasks| ==> tasks[k] == tasks[1..][k - 1];
        r
  }

  /** Served in order with the worker surviving, the last task's prediction is what stays under its id. */
  lemma {:induction false} DrainLastWins(s: WorkerState, tasks: seq<Task>, t: Task, events: map<string, nat>,
                                        predict: string -> Prediction)
    requires forall u :: u in tasks + [t] ==> u.id in events
    requires Drain(s, tasks + [t], events, predict).alive
    ensures var r := Drain(s, tasks + [t], events, predict);
      t.id in r.results && predict(t.path).Predicted? && r.results[t.id] == predict(t.path).results
    decreases |tasks|
  {
    if tasks == [] {
      assert ([t])[1..] == [];
    } else {
      assert (tasks + [t])[0] == tasks[0];
      assert (tasks + [t])[1..] == tasks[1..] + [t];
      assert predict(tasks[0].path).Predicted? by {
        assert (tasks + [t])[0] == tasks[0];
      }
      var p := predict(tasks[0].path).results;
      DrainLastWins(WorkerState(s.results[tasks[0].id := p], s.fired + {events[tasks[0].id]}, true), tasks[1..], t, events, predict);
    }
  }

  class Dispatcher {
    /** `task_queue`, head first. */
    var queue: seq<Task>
    /** `results`. */
    var results: map<string, seq<YoloResult>>
    /** `events`: the Event object currently registered under each id. */
    var events: map<string, nat>
    /** The Event objects that have been set. */
    var fired: set<nat>
    /** The next Event object to hand out. */
    var nextEvent: nat
    /** False once an exception has ended the worker thread. */
    var workerAlive: bool
    /** Every task ever put on the queue, in order. */
    ghost var submitted: seq<Task>
    /** Every task the worker has taken off the queue, in order. */
    ghost var taken: seq<Task>

    ghost predicate Valid()
      reads this
    {
      && submitted == taken + queue
      && (forall t :: t in queue ==> t.id in events)
      && (forall id :: id in events ==> events[id] < nextEvent)
      && (forall e :: e in fired ==> e < nextEvent)
    }

    constructor ()
      ensures Valid()
      ensures queue == [] && results == map[] && events == map[] && fired == {} && workerAlive
      ensures submitted == [] && taken == []
    {
      queue, results, events, fired, nextEvent, workerAlive := [], map[], map[], {}, 0, true;
      submitted, taken := [], [];
    }

    /**
     * The first half of `detect`: register a new Event under its task id
     * (replacing any Event already there) and enqueue it. Returns
     * the Event the caller waits on.
     */
    method Submit(imageId: nat, ms: nat, path: string) returns (ev: nat)
      requires Valid()
      modifies this
      ensures Valid()
      ensures queue == old(queue) + [Task(TaskId(imageId, ms), path)]
      ensures submitted == old(submitted) + [Task(TaskId(imageId, ms), path)] && taken == old(taken)
      ensures ev == old(nextEvent) && ev !in fired && nextEvent == ev + 1
      ensures events == old(events)[TaskId(imageId, ms) := ev]
      ensures old(events).Keys <= events.Keys
      ensures results == old(results) && fired == old(fired) && workerAlive == old(workerAlive)
    {
      var id := TaskId(imageId, ms);
      ev := nextEvent;
      nextEvent := nextEvent + 1;
      events := events[id := ev];
      queue := queue + [Task(id, path)];
      submitted := submitted + [Task(id, path)];
    }

    /**
     * One pass of `detection_worker`: take the head task, predict, store
     * the result and set the Event registered under its id. An exception
     * ends the worker; a dead or idle worker changes nothing.
     */
    method WorkerStep(predict: string -> Prediction)
      requires Valid()
      modifies this
      ensures Valid()
      ensures events == old(events) && nextEvent == old(nextEvent) && submitted == old(submitted)
      ensures !old(workerAlive) || old(queue) == [] ==>
        queue == old(queue) && taken == old(taken) && results == old(results) && fired == old(fired) && workerAlive == old(workerAlive)
      ensures old(workerAlive) && old(queue) != [] ==>
        queue == old(queue)[1..] && taken == old(taken) + [old(queue)[0]]
      ensures old(workerAlive) && old(queue) != [] && predict(old(queue)[0].path).Raised? ==>
        !workerAlive && results == old(results) && fired == old(fired)
      ensures old(workerAlive) && old(queue) != [] && predict(old(queue)[0].path).Predicted? ==>
        var t := old(queue)[0];
        workerAlive
        && results == old(results)[t.id := predict(t.path).results]
        && fired == old(fired) + {old(events)[t.id]}
    {
      if !workerAlive || queue == [] {
        return;
      }
      var t := queue[0];
      queue := queue[1..];
      taken := taken + [t];
      match predict(t.path)
      case Raised =>
        workerAlive := false;
      case Predicted(r) =>
        results := results[t.id := r];
        fired := fired + {events[t.id]};
    }

    /** `results.pop(task_id, None)`: the caller takes its result out of the map. */
    method Claim(id: string) returns (r: Option<seq<YoloResult>>)
      requires Valid()
      modifies this
      ensures Valid()
      ensures r == (if id in old(results) then Some(old(results)[id]) else None)
      ensures results == old(results) - {id}
      ensures queue == old(queue) && events == old(events) && fired == old(fired) && workerAlive == old(workerAlive)
      ensures nextEvent == old(nextEvent) && submitted == old(submitted) && taken == old(taken)
    {
      if id in results {
        r := Some(results[id]);
      } else {
        r := None;
      }
      results := results - {id};
    }

    /** The worker state the dispatcher holds now. */
    ghost function State(): WorkerState
      reads this
    {
      WorkerState(results, fired, workerAlive)
    }

    /**
     * `events[task_id].wait()` with the worker driven meanwhile: it serves
     * the queue until the caller's Event `ev` is set, the worker dies or
     * the queue runs dry. The caller's task `Task(id, path)` is last on
     * the queue; `clean` says no earlier task shares its id.
     */
    method AwaitEvent(ev: nat, ghost id: string, ghost path: string, ghost clean: bool, predict: string -> Prediction)
      requires Valid()
      requires id in events && events[id] == ev && ev !in fired
      requires forall i :: i in events && i != id ==> events[i] != ev
      requires queue != [] && queue[|queue| - 1] == Task(id, path)
      requires clean ==> forall k :: 0 <= k < |queue| - 1 ==> queue[k].id != id
      modifies this
      ensures Valid()
      ensures events == old(events) && nextEvent == old(nextEvent)
      ensures ev !in fired ==> State() == Drain(old(State()), old(queue), events, predict)
      ensures clean ==> State() == Drain(old(State()), old(queue), events, predict)
      ensures clean ==> (ev in fired <==> workerAlive)
      ensures clean && ev in fired ==> queue == [] && id in results && results[id] == OwnResult(predict, path)
    {
      ghost var final := Drain(State(), queue, events, predict);
      while ev !in fired && workerAlive && queue != []
        invariant Valid()
        invariant events == old(events) && nextEvent == old(nextEvent)
        invariant Drain(State(), queue, events, predict) == final
        invariant ev !in fired ==> !workerAlive || (queue != [] && queue[|queue| - 1] == Task(id, path))
        invariant clean ==> forall k :: 0 <= k < |queue| - 1 ==> queue[k].id != id
        invariant clean && ev in fired ==> queue == [] && workerAlive && id in results && results[id] == OwnResult(predict, path)
        invariant clean && !workerAlive ==> ev !in fired
        decreases |queue|
      {
        WorkerStep(predict);
      }
    }

    /**
     * `detect(image_id)` from submit to return, with the worker driven
     * until the caller's Event is set, no other caller acting meanwhile.
     * `Hang` is a caller that would wait forever.
     */
    method DetectCall(image: Option<Image>, ms: nat, now: DateTime, render: real -> string, drawn: bool, writes: string -> bool,
                      path: string, predict: string -> Prediction)
      returns (out: CallOutcome)
      requires Valid()
      modifies this
      ensures Valid()
      ensures image.None? ==>
        && out == Crashed && queue == old(queue) && results == old(results) && events == old(events)
        && fired == old(fired) && workerAlive == old(workerAlive) && nextEvent == old(nextEvent)
      ensures image.Some? ==> events == old(events)[TaskId(image.value.imageId, ms) := old(nextEvent)]
      ensures image.Some? ==>
        var s := Drain(WorkerState(old(results), old(fired), old(workerAlive)),
                       old(queue) + [Task(TaskId(image.value.imageId, ms), path)], events, predict);
        && (out == Hang ==> results == s.results && fired == s.fired && workerAlive == s.alive)
        && ((forall k :: 0 <= k < |old(queue)| ==> old(queue)[k].id != TaskId(image.value.imageId, ms)) && out.Returned? ==>
              results == s.results - {TaskId(image.value.imageId, ms)} && fired == s.fired && workerAlive == s.alive)
      ensures image.Some? && out.Returned? ==> TaskId(image.value.imageId, ms) !in results
      ensures image.Some? && (forall k :: 0 <= k < |old(queue)| ==> old(queue)[k].id != TaskId(image.value.imageId, ms)) ==>
        (if workerAlive
         then out == Returned(FinishDetect(image.value, Some(OwnResult(predict, path)), now, render, drawn, writes)) && queue == []
         else out == Hang)
    {
      if image.None? {
        return Crashed;
      }
      var img := image.value;
      var id := TaskId(img.imageId, ms);
      ghost var clean := forall k :: 0 <= k < |queue| ==> queue[k].id != id;
      var ev := Submit(img.imageId, ms, path);
      AwaitEvent(ev, id, path, clean, predict);
      if ev !in fired {
        return Hang;
      }
      var claimed := Claim(id);
      out := Returned(FinishDetect(img, claimed, now, render, drawn, writes));
    }
  }

  /**
   * Two callers with different task ids, worker healthy: the worker
   * serves them in submission order and each caller's claim returns its
   * own prediction, once.
   */
  method TwoCallersEachGetOwnResult(a: nat, msA: nat, pathA: string, b: nat, msB: nat, pathB: string,
                                    predict: string -> Prediction)
    returns (ra: Option<seq<YoloResult>>, rb: Option<seq<YoloResult>>, again: Option<seq<YoloResult>>)
    requires (a, msA) != (b, msB)
    requires predict(pathA).Predicted? && predict(pathB).Predicted?
    ensures ra == Some(predict(pathA).results) && rb == Some(predict(pathB).results)
    ensures again == None
  {
    TaskIdCollidesIff(a, msA, b, msB);
    var d := new Dispatcher();
    var evA := d.Submit(a, msA, pathA);
    var evB := d.Submit(b, msB, pathB);
    d.WorkerStep(predict);
    assert evA in d.fired && evB !in d.fired;
    ra := d.Claim(TaskId(a, msA));
    d.WorkerStep(predict);
    assert evB in d.fired;
    rb := d.Claim(TaskId(b, msB));
    again := d.Claim(TaskId(a, msA));
  }

  /**
   * Two submits for the same image in the same millisecond: the second
   * replaces the first's Event, so the first caller is never woken, the
   * second caller receives the first task's prediction, and the second
   * task's prediction stays in `results` for good.
   */
  method SameMillisecondStrandsFirstCaller(img: nat, ms: nat, path1: string, path2: string,
                                           predict: string -> Prediction)
    returns (firstWoken: bool, secondGot: Option<seq<YoloResult>>, leftover: bool)
    requires predict(path1).Predicted? && predict(path2).Predicted?
    ensures !firstWoken
    ensures secondGot == Some(predict(path1).results)
    ensures leftover
  {
    var d := new Dispatcher();
    var ev1 := d.Submit(img, ms, path1);
    var ev2 := d.Submit(img, ms, path2);
    d.WorkerStep(predict);
    assert ev2 in d.fired;
    secondGot := d.Claim(TaskId(img, ms));
    d.WorkerStep(predict);
    firstWoken := ev1 in d.fired;
    leftover := TaskId(img, ms) in d.results;
  }

  /**
   * The worker has no exception handler: once a prediction raises, the
   * thread is gone and no task queued behind it is ever served.
   */
  method CrashStrandsLaterCallers(a: nat, msA: nat, pathA: string, b: nat, msB: nat, pathB: string,
                                  predict: string -> Prediction, extraSteps: nat)
    returns (bWoken: bool, pending: nat)
    requires predict(pathA).Raised?
    ensures !bWoken && pending == 1
  {
    var d := new Dispatcher();
    var evA := d.Submit(a, msA, pathA);
    var evB := d.Submit(b, msB, pathB);
    d.WorkerStep(predict);
    var i := 0;
    while i < extraSteps
      invariant d.Valid() && !d.workerAlive && evB !in d.fired && |d.queue| == 1
    {
      d.WorkerStep(predict);
      i := i + 1;
    }
    bWoken := evB in d.fired;
    pending := |d.queue|;
  }

  /** How a `detect` call ends: it returns, it raises before submitting, or it never wakes up. */
  datatype CallOutcome = Returned(result: Result<LocalDetect, string>) | Crashed | Hang

  /** The predicted result list of the caller's own task (an exception never gets here). */
  function OwnResult(predict: string -> Prediction, path: string): seq<YoloResult>
  {
    match predict(path)
    case Predicted(r) => r
    case Raised => []
  }

  /** What `detect` writes back and returns once it holds its result. */
  datatype LocalDetect = LocalDetect(found: bool, image: Image, newDefects: seq<Defect>)

  /** `f"{name.split('.')[0]}_processed.{name.split('.')[1]}"`; None when the name has no dot (`IndexError`). */
  function DottedProcessedName(name: string): (r: Option<string>)
    ensures r.Some? <==> !Lacks(name, '.')
  {
    var parts := SplitDots(name);
    if |parts| < 2 then None else Some(parts[0] + "_processed." + parts[1])
  }

  /** One `HSDefect` per box; the type is the class id printed as an integer. */
  function LocalDefects(boxes: seq<Det>, imageId: nat, render: real -> string): (r: seq<Defect>)
    ensures |r| == |boxes|
    ensures forall i :: 0 <= i < |boxes| ==>
      r[i] == Defect(IntToString(boxes[i].classId), Some(BboxText(boxes[i].box, render)), Some(boxes[i].confidence), imageId)
  {
    if boxes == [] then []
    else
      var b := boxes[|boxes| - 1];
      LocalDefects(boxes[..|boxes| - 1], imageId, render)
        + [Defect(IntToString(b.classId), Some(BboxText(b.box, render)), Some(b.confidence), imageId)]
  }

  /**
   * The rest of `detect` after `results.pop`: an empty or missing result
   * returns False and writes nothing; otherwise the processed name, the
   * detect time and one defect per box of the first result are written
   * and the return value says whether there was a box. `drawn` says
   * whether the mask loop completes: the masks are not resized, so one
   * whose shape differs from the image's raises `ValueError` at the
   * channel assignment. `writes(name)` says whether `cv2.imwrite` can
   * write the processed file under that name (it raises for an
   * extension OpenCV has no writer for). Each raise comes before the
   * commit, so nothing is stored.
   */
  function FinishDetect(image: Image, claimed: Option<seq<YoloResult>>, now: DateTime, render: real -> string,
                        drawn: bool, writes: string -> bool): (r: Result<LocalDetect, string>)
    ensures (claimed.None? || claimed.value == []) ==> r == Ok(LocalDetect(false, image, []))
    ensures claimed.Some? && claimed.value != [] ==>
      (r.Ok? <==> drawn && !Lacks(image.originalPath, '.') && writes(DottedProcessedName(image.originalPath).value))
    ensures r.Ok? && claimed.Some? && claimed.value != [] ==>
      var boxes := claimed.value[0].boxes;
      && r.value.found == (|boxes| != 0)
      && r.value.image == image.(processedPath := DottedProcessedName(image.originalPath), detectTime := Some(now))
      && r.value.newDefects == LocalDefects(boxes, image.imageId, render)
      && |r.value.newDefects| == |boxes|
      && forall i :: 0 <= i < |boxes| ==> r.value.newDefects[i].imageId == image.imageId
  {
    if claimed.None? || claimed.value == [] then Ok(LocalDetect(false, image, []))
    else
      var boxes := claimed.value[0].boxes;
      if !drawn then Err("ValueError: could not broadcast the mask into the image")
      else
        match DottedProcessedName(image.originalPath)
        case None => Err("IndexError: list index out of range")
        case Some(name) =>
          if !writes(name) then Err("cv2.error: could not find a writer for the specified extension")
          else
            var updated := image.(processedPath := Some(name), detectTime := Some(now));
            Ok(LocalDetect(|boxes| != 0, updated, LocalDefects(boxes, image.imageId, render)))
  }

  /** For a plain `stem.ext` name the dotted naming and the splitext naming agree. */
  lemma DottedAgreesOnOneDot(stem: string, ext: string)
    requires stem != [] && Lacks(stem, '.') && Lacks(stem, '/')
    requires Lacks(ext, '.') && Lacks(ext, '/')
    ensures DottedProcessedName(stem + "." + ext) == Some(Suffixed(stem + "." + ext, "_processed"))
  {
    var name := stem + "." + ext;
    assert LastIndexOf(name, '.') == |stem| by {
      assert name[|stem|] == '.';
      assert forall k :: |stem| < k < |name| ==> name[k] == ext[k - |stem| - 1];
    }
    assert name[..|stem|] == stem && name[|stem| + 1..] == ext;
    assert SplitDots(name) == [stem, ext];
    assert IsExt("." + ext);
    assert name == stem + ("." + ext);
    SplitStemExt(stem, "." + ext);
    assert stem + "_processed." + ext == stem + "_processed" + ("." + ext);
  }

  /** With two dots the dotted naming keeps the first two fields: `a.b.png` becomes `a_processed.b`. */
  lemma DottedOnTwoDots(a: string, b: string, ext: string)
    requires Lacks(a, '.') && Lacks(b, '.') && Lacks(ext, '.')
    ensures DottedProcessedName(a + "." + b + "." + ext) == Some(a + "_processed." + b)
  {
    SplitDotsAppend(a + "." + b, ext);
    SplitDotsAppend(a, b);
    SplitDotsNone(a);
  }
  /**
   * With two dots the processed file is written under `a_processed.b`; when
   * OpenCV has no writer for `.b` the call raises before the commit, so the
   * image is not marked and no defect row is stored.
   */
  lemma TwoDotsUnwritableStoresNothing(image: Image, a: string, b: string, ext: string,
                                       claimed: seq<YoloResult>, now: DateTime, render: real -> string,
                                       drawn: bool, writes: string -> bool)
    requires Lacks(a, '.') && Lacks(b, '.') && Lacks(ext, '.')
    requires image.originalPath == a + "." + b + "." + ext
    requires claimed != [] && !writes(a + "_processed." + b)
    ensures FinishDetect(image, Some(claimed), now, render, drawn, writes).Err?
  {
    DottedOnTwoDots(a, b, ext);
  }


  /**
   * The `splitext` naming tags the stem before the last dot instead:
   * `a.b.png` becomes `a.b_processed.png`, so the two namings differ.
   */
  lemma SplitExtOnTwoDots(a: string, b: string, ext: string)
    requires a != [] && Lacks(a, '.') && Lacks(a, '/')
    requires Lacks(b, '.') && Lacks(b, '/') && Lacks(ext, '.') && Lacks(ext, '/')
    ensures Suffixed(a + "." + b + "." + ext, "_processed") == a + "." + b + "_processed." + ext
    ensures DottedProcessedName(a + "." + b + "." + ext) != Some(Suffixed(a + "." + b + "." + ext, "_processed"))
  {
    var front := a + "." + b;
    forall j | 0 <= j < |front| ensures front[j] != '/' {
      if j < |a| { assert front[j] == a[j]; }
      else if j > |a| { assert front[j] == b[j - |a| - 1]; }
    }
    assert front[0] == a[0];
    SplitExtAppend(front, ext);
    assert front + "_processed" + ("." + ext) == a + "." + b + "_processed." + ext;
    DottedOnTwoDots(a, b, ext);
  }

}
