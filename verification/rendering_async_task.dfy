/**
  The background rendering worker as a sequential state machine.

  The worker owns a list of pending rendering tasks. The view appends tasks and
  may clear the list at any time; the worker repeatedly takes the head of the
  list (leaving it in the list), renders it, and then removes that task object
  from the list: if the removal succeeds the rendered part is published,
  otherwise the task was cleared meanwhile and the bitmap is recycled.
  Rendering itself is a foreign call, so each take and each finish is an atomic
  step here, and other steps may come between them.
*/
module RenderingAsyncTask {
  import opened Wrappers
  import opened PageParts

  /** The fields of a rendering task. */
  datatype Request = Request(width: real, height: real, bounds: Rect, userPage: int, page: int, thumbnail: bool, cacheOrder: int)

  /**
    A RenderingTask object. The class has no `equals`, so the list's
    `remove` matches by object identity: `id` stands for that identity.
  */
  datatype Task = Task(id: nat, request: Request)

  /** Where the worker's loop is: inside the draining loop, blocked waiting for a task, or returned. */
  datatype Phase = Draining | Waiting | Exited

  datatype Worker = Worker(tasks: seq<Task>, inFlight: Option<Task>, nextId: nat, cancelled: bool, phase: Phase)

  /** A freshly started worker: no task, nothing in flight. */
  const NewWorker := Worker([], None, 0, false, Draining)

  predicate Distinct(tasks: seq<Task>) {
    forall i, j | 0 <= i < j < |tasks| :: tasks[i].id != tasks[j].id
  }

  /** Task identities are distinct, and every identity in use was handed out before `nextId`. */
  predicate Valid(w: Worker) {
    && Distinct(w.tasks)
    && (forall i | 0 <= i < |w.tasks| :: w.tasks[i].id < w.nextId)
    && (w.inFlight.Some? ==> w.inFlight.value.id < w.nextId)
    && (w.phase != Draining ==> w.inFlight.None?)
  }

  function Requests(tasks: seq<Task>): (r: seq<Request>)
    ensures |r| == |tasks| && forall i | 0 <= i < |tasks| :: r[i] == tasks[i].request
  {
    if |tasks| == 0 then [] else [tasks[0].request] + Requests(tasks[1..])
  }

  /** Some task in the list has identity `id`. */
  predicate Queued(tasks: seq<Task>, id: nat) {
    exists i | 0 <= i < |tasks| :: tasks[i].id == id
  }

  /**
    `addRenderingTask`: a new task object carrying the given fields goes to the
    end of the list; a waiting worker is woken up.
  */
  function AddRenderingTask(w: Worker, userPage: int, page: int, width: real, height: real, bounds: Rect,
                            thumbnail: bool, cacheOrder: int): (r: Worker)
    ensures Requests(r.tasks) == Requests(w.tasks) + [Request(width, height, bounds, userPage, page, thumbnail, cacheOrder)]
    ensures r.tasks[..|w.tasks|] == w.tasks
    ensures Valid(w) ==> Valid(r) && !Queued(w.tasks, r.tasks[|w.tasks|].id)
    ensures Valid(w) && w.inFlight.Some? ==> w.inFlight.value.id != r.tasks[|w.tasks|].id
    ensures r.inFlight == w.inFlight && r.cancelled == w.cancelled
    ensures r.phase == if w.phase == Waiting then (if w.cancelled then Exited else Draining) else w.phase
  {
    var task := Task(w.nextId, Request(width, height, bounds, userPage, page, thumbnail, cacheOrder));
    var phase := if w.phase == Waiting then (if w.cancelled then Exited else Draining) else w.phase;
    var tasks := w.tasks + [task];
    assert tasks[..|w.tasks|] == w.tasks && tasks[|w.tasks|] == task;
    RequestsAppend(w.tasks, task);
    AppendFreshKeepsValid(w, task, phase);
    Worker(tasks, w.inFlight, w.nextId + 1, w.cancelled, phase)
  }

  lemma RequestsAppend(tasks: seq<Task>, t: Task)
    ensures Requests(tasks + [t]) == Requests(tasks) + [t.request]
  {
    var a := Requests(tasks + [t]);
    var b := Requests(tasks) + [t.request];
    assert |a| == |b|;
    forall i | 0 <= i < |a| ensures a[i] == b[i] {
      if i < |tasks| {
        assert (tasks + [t])[i] == tasks[i];
      }
    }
  }

  /** A task with the next unused identity can join a valid worker's list, which may leave the wait. */
  lemma AppendFreshKeepsValid(w: Worker, t: Task, phase: Phase)
    requires t.id == w.nextId
    requires phase == w.phase || w.phase == Waiting
    ensures Valid(w) ==> Valid(Worker(w.tasks + [t], w.inFlight, w.nextId + 1, w.cancelled, phase)) && !Queued(w.tasks, t.id)
  {
    if Valid(w) {
      var tasks := w.tasks + [t];
      forall i, j | 0 <= i < j < |tasks| ensures tasks[i].id != tasks[j].id {
        assert tasks[i] == w.tasks[i];
        if j < |w.tasks| {
          assert tasks[j] == w.tasks[j];
        }
      }
      assert !Queued(w.tasks, t.id);
    }
  }

  /** `removeAllTasks`: the list is emptied; a task in flight stays in flight. */
  function RemoveAllTasks(w: Worker): (r: Worker)
    ensures r.tasks == [] && !Queued(r.tasks, 0)
    ensures r.inFlight == w.inFlight && r.nextId == w.nextId && r.phase == w.phase && r.cancelled == w.cancelled
    ensures Valid(w) ==> Valid(r)
  {
    w.(tasks := [])
  }

  /** `cancel(true)`: the flag is set, and a worker blocked in `wait` is interrupted and returns. */
  function Cancel(w: Worker): (r: Worker)
    ensures r.cancelled && r.tasks == w.tasks && r.inFlight == w.inFlight
    ensures w.phase == Waiting || w.phase == Exited ==> r.phase == Exited
    ensures w.phase == Draining ==> r.phase == Draining
    ensures Valid(w) ==> Valid(r)
  {
    w.(cancelled := true, phase := if w.phase == Waiting then Exited else w.phase)
  }

  /**
    One turn of the draining loop before rendering: with tasks pending, the
    head (index 0) is taken and stays in the list; with none, the worker leaves
    the loop and waits, or returns if it was cancelled. Outside the draining
    loop, or with a task already in flight, nothing happens.
  */
  function Take(w: Worker): (r: Worker)
    ensures w.phase == Draining && w.inFlight.None? && |w.tasks| > 0 ==>
              r == w.(inFlight := Some(w.tasks[0]))
    ensures w.phase == Draining && w.inFlight.None? && |w.tasks| == 0 ==>
              r == w.(phase := if w.cancelled then Exited else Waiting)
    ensures !(w.phase == Draining && w.inFlight.None?) ==> r == w
    ensures Valid(w) ==> Valid(r)
  {
    if w.phase != Draining || w.inFlight.Some? then w
    else if |w.tasks| > 0 then w.(inFlight := Some(w.tasks[0]))
    else w.(phase := if w.cancelled then Exited else Waiting)
  }

  /** `proceed`: the rendered part copies every field of its task and holds the new bitmap. */
  function Proceed(task: Task, render: Bitmap): (part: PagePart)
    ensures part.userPage == task.request.userPage && part.page == task.request.page
    ensures part.pageRelativeBounds == task.request.bounds && part.thumbnail == task.request.thumbnail
    ensures part.cacheOrder == task.request.cacheOrder && part.renderedBitmap == Some(render)
  {
    var t := task.request;
    NewPagePart(t.userPage, t.page, Some(render), t.width, t.height, t.bounds, t.thumbnail, t.cacheOrder)
  }

  /** What a finish step does with the rendered part. */
  datatype Outcome = NoOutcome | Published(taskId: nat, part: PagePart) | Discarded(taskId: nat, part: PagePart)

  datatype Stepped = Stepped(worker: Worker, outcome: Outcome)

  /** Position of the first task with identity `id`, or |tasks| when there is none. */
  function IndexOf(tasks: seq<Task>, id: nat): (k: nat)
    ensures k <= |tasks|
    ensures k < |tasks| ==> tasks[k].id == id
    ensures forall i | 0 <= i < k :: tasks[i].id != id
    ensures Queued(tasks, id) <==> k < |tasks|
  {
    if |tasks| == 0 then 0
    else if tasks[0].id == id then 0
    else
      var k := 1 + IndexOf(tasks[1..], id);
      assert forall i | 1 <= i < k :: tasks[i].id == tasks[1..][i - 1].id;
      k
  }

  /** `List.remove(Object)` with identity equality: drops the first task with identity `id`. */
  function RemoveTask(tasks: seq<Task>, id: nat): (r: seq<Task>)
    ensures !Queued(tasks, id) ==> r == tasks
    ensures Queued(tasks, id) ==> |r| == |tasks| - 1
  {
    var k := IndexOf(tasks, id);
    if k < |tasks| then tasks[..k] + tasks[k + 1..] else tasks
  }

  /** With distinct identities, the removal leaves no task with that identity and keeps all the others, in order. */
  lemma {:induction false} RemoveTaskSpec(tasks: seq<Task>, id: nat)
    ensures var r := RemoveTask(tasks, id);
            && (forall i | 0 <= i < |r| :: r[i] in tasks)
            && (forall t | t in tasks && t.id != id :: t in r)
    ensures Distinct(tasks) ==> Distinct(RemoveTask(tasks, id)) && !Queued(RemoveTask(tasks, id), id)
  {
    var k := IndexOf(tasks, id);
    var r := RemoveTask(tasks, id);
    if k < |tasks| {
      assert forall i | 0 <= i < |r| :: r[i] == tasks[if i < k then i else i + 1];
      forall t | t in tasks && t.id != id
        ensures t in r
      {
        var j :| 0 <= j < |tasks| && tasks[j] == t;
        assert r[if j < k then j else j - 1] == t;
      }
    }
  }

  /**
    The end of a turn: the rendered task object is removed from the list; the
    part is published iff that removal found it, and otherwise discarded with
    its bitmap recycled.
  */
  function Finish(w: Worker, render: Bitmap): (r: Stepped)
    ensures w.inFlight.None? ==> r.worker == w && r.outcome == NoOutcome
    ensures w.inFlight.Some? ==> r.worker.inFlight.None? && r.worker.phase == w.phase
    ensures w.inFlight.Some? ==>
              var t := w.inFlight.value;
              && !r.outcome.NoOutcome? && r.outcome.taskId == t.id && r.outcome.part == Proceed(t, render)
              && (r.outcome.Published? <==> Queued(w.tasks, t.id))
              && (r.outcome.Discarded? <==> !Queued(w.tasks, t.id))
    ensures w.inFlight.Some? && Valid(w) ==>
              && !Queued(r.worker.tasks, w.inFlight.value.id)
              && (forall u | u in w.tasks && u.id != w.inFlight.value.id :: u in r.worker.tasks)
    ensures Valid(w) ==> Valid(r.worker)
  {
    match w.inFlight
    case None => Stepped(w, NoOutcome)
    case Some(t) =>
      RemoveTaskSpec(w.tasks, t.id);
      var part := Proceed(t, render);
      var tasks := RemoveTask(w.tasks, t.id);
      var outcome := if Queued(w.tasks, t.id) then Published(t.id, part) else Discarded(t.id, part);
      Stepped(w.(tasks := tasks, inFlight := None), outcome)
  }

  /** Everything that can happen to the worker, from the view's thread or its own. */
  datatype Event =
    | Add(userPage: int, page: int, width: real, height: real, bounds: Rect, thumbnail: bool, cacheOrder: int)
    | RemoveAll
    | TakeNext
    | FinishRender(render: Bitmap)
    | CancelWorker

  function Apply(w: Worker, e: Event): Stepped {
    match e
    case Add(userPage, page, width, height, bounds, thumbnail, cacheOrder) =>
      Stepped(AddRenderingTask(w, userPage, page, width, height, bounds, thumbnail, cacheOrder), NoOutcome)
    case RemoveAll => Stepped(RemoveAllTasks(w), NoOutcome)
    case TakeNext => Stepped(Take(w), NoOutcome)
    case FinishRender(render) => Finish(w, render)
    case CancelWorker => Stepped(Cancel(w), NoOutcome)
  }

  datatype Trace = Trace(worker: Worker, outcomes: seq<Outcome>)

  /** The worker after a sequence of events, with the outcome of each event. */
  function Run(w: Worker, events: seq<Event>): (r: Trace)
    ensures |r.outcomes| == |events|
    decreases |events|
  {
    if |events| == 0 then Trace(w, [])
    else
      var s := Apply(w, events[0]);
      var rest := Run(s.worker, events[1..]);
      Trace(rest.worker, [s.outcome] + rest.outcomes)
  }

  lemma ApplyKeepsValid(w: Worker, e: Event)
    requires Valid(w)
    ensures Valid(Apply(w, e).worker)
  {
  }

  /** A task that was handed out but is neither queued nor being rendered. */
  predicate Gone(w: Worker, id: nat) {
    id < w.nextId && !Queued(w.tasks, id) && (w.inFlight.None? || w.inFlight.value.id != id)
  }

  predicate PublishesTask(o: Outcome, id: nat) {
    o.Published? && o.taskId == id
  }

  /** One event never brings a gone task back, and never publishes it. */
  lemma GoneStaysGone(w: Worker, e: Event, id: nat)
    requires Valid(w) && Gone(w, id)
    ensures Gone(Apply(w, e).worker, id) && !PublishesTask(Apply(w, e).outcome, id)
  {
    match e
    case TakeNext =>
      if w.phase == Draining && w.inFlight.None? && |w.tasks| > 0 {
        assert w.tasks[0].id != id;
      }
    case FinishRender(render) =>
      if w.inFlight.Some? {
        RemoveTaskSpec(w.tasks, w.inFlight.value.id);
      }
    case _ =>
  }

  /**
    Once a task is gone, no later event publishes its part: a task cleared by
    `removeAllTasks` before it was taken, or whose rendering was finished,
    never reaches the view again.
  */
  lemma {:induction false} GoneNeverPublished(w: Worker, events: seq<Event>, id: nat)
    requires Valid(w) && Gone(w, id)
    ensures forall i | 0 <= i < |events| :: !PublishesTask(Run(w, events).outcomes[i], id)
    decreases |events|
  {
    if |events| > 0 {
      var s := Apply(w, events[0]);
      GoneStaysGone(w, events[0], id);
      ApplyKeepsValid(w, events[0]);
      GoneNeverPublished(s.worker, events[1..], id);
      var r := Run(w, events);
      forall i | 0 <= i < |events|
        ensures !PublishesTask(r.outcomes[i], id)
      {
        if i > 0 {
          assert r.outcomes[i] == Run(s.worker, events[1..]).outcomes[i - 1];
        }
      }
    }
  }

  /**
    `removeAllTasks` cancels every queued task that is not being rendered:
    none of them is ever published afterwards.
  */
  lemma RemovedTasksNeverPublished(w: Worker, t: Task, events: seq<Event>)
    requires Valid(w) && t in w.tasks && (w.inFlight.None? || w.inFlight.value.id != t.id)
    ensures forall i | 0 <= i < |events| :: !PublishesTask(Run(RemoveAllTasks(w), events).outcomes[i], t.id)
  {
    GoneNeverPublished(RemoveAllTasks(w), events, t.id);
  }

  /** The task being rendered when the list is cleared is discarded when it finishes. */
  lemma InFlightTaskDiscardedAfterRemoveAll(w: Worker, render: Bitmap)
    requires w.inFlight.Some?
    ensures Finish(RemoveAllTasks(w), render).outcome.Discarded?
  {
  }

  /** A returned worker stays returned and produces no outcome, whatever happens next. */
  lemma {:induction false} ExitedIsFinal(w: Worker, events: seq<Event>)
    requires Valid(w) && w.phase == Exited
    ensures Run(w, events).worker.phase == Exited
    ensures forall i | 0 <= i < |events| :: Run(w, events).outcomes[i] == NoOutcome
    decreases |events|
  {
    if |events| > 0 {
      var s := Apply(w, events[0]);
      ApplyKeepsValid(w, events[0]);
      ExitedIsFinal(s.worker, events[1..]);
      var r := Run(w, events);
      forall i | 0 <= i < |events|
        ensures r.outcomes[i] == NoOutcome
      {
        if i > 0 {
          assert r.outcomes[i] == Run(s.worker, events[1..]).outcomes[i - 1];
        }
      }
    }
  }

  /**
    A queued task that is never cleared is published: taking it and finishing
    it with no clearing in between publishes its part with its own fields.
  */
  lemma TakenHeadIsPublished(w: Worker, render: Bitmap)
    requires Valid(w) && w.phase == Draining && w.inFlight.None? && |w.tasks| > 0
    ensures var r := Finish(Take(w), render);
            && r.outcome == Published(w.tasks[0].id, Proceed(w.tasks[0], render))
            && r.worker.tasks == w.tasks[1..]
  {
    var t := w.tasks[0];
    assert Queued(w.tasks, t.id);
    assert IndexOf(w.tasks, t.id) == 0;
  }
}
