/**
  The zoom model: a zoom factor that never drops below 1, changed directly
  or by fixed increments, and a commit flag that lets the end of a zoom
  gesture be announced once. Every announcement is appended to a trace of
  dispatched events. Zoom factors are reals: the model does not round to
  single precision.
*/
module ZoomModel {

  const INITIAL_ZOOM: real := 1.0
  const MIN_ZOOM: real := 1.0
  const INCREMENT_DELTA: real := 0.05

  datatype ZoomEvent = ZoomChanged(newZoom: real, oldZoom: real) | CommitZoom | BringUpZoomControls

  datatype Zoom = Zoom(zoom: real, horizontalScrollEnabled: bool, isCommited: bool, dispatched: seq<ZoomEvent>)

  const NewZoom := Zoom(INITIAL_ZOOM, false, false, [])

  /** Math.max(z, 1.0): the requested factor, raised to the minimum. */
  function AtLeastMin(z: real): (r: real)
    ensures r >= MIN_ZOOM
    ensures z >= MIN_ZOOM ==> r == z
    ensures z < MIN_ZOOM ==> r == MIN_ZOOM
  {
    if z >= MIN_ZOOM then z else MIN_ZOOM
  }

  /**
    setZoom: stores the factor raised to 1. A change is announced with the new
    and the old factor and withdraws the commit; asking for the stored factor
    changes nothing and announces nothing.
  */
  function SetZoom(m: Zoom, z: real): (r: Zoom)
    ensures r.zoom >= MIN_ZOOM
    ensures z >= MIN_ZOOM ==> r.zoom == z
    ensures z < MIN_ZOOM ==> r.zoom == MIN_ZOOM
    ensures r.zoom != m.zoom ==>
              && r.dispatched == m.dispatched + [ZoomChanged(r.zoom, m.zoom)]
              && !r.isCommited
              && r.horizontalScrollEnabled == m.horizontalScrollEnabled
    ensures r.zoom == m.zoom ==> r == m
  {
    var stored := AtLeastMin(z);
    if m.zoom != stored then m.(zoom := stored, isCommited := false, dispatched := m.dispatched + [ZoomChanged(stored, m.zoom)])
    else m
  }

  /** increaseZoom: from any factor of at least 1, the factor grows by the delta and the change is announced. */
  function IncreaseZoom(m: Zoom): (r: Zoom)
    ensures m.zoom >= MIN_ZOOM ==>
              && r.zoom == m.zoom + INCREMENT_DELTA
              && r.dispatched == m.dispatched + [ZoomChanged(m.zoom + INCREMENT_DELTA, m.zoom)]
  {
    SetZoom(m, m.zoom + INCREMENT_DELTA)
  }

  /** decreaseZoom: the factor shrinks by the delta but never below 1; at 1 nothing happens. */
  function DecreaseZoom(m: Zoom): (r: Zoom)
    ensures r.zoom >= MIN_ZOOM
    ensures m.zoom - INCREMENT_DELTA >= MIN_ZOOM ==> r.zoom == m.zoom - INCREMENT_DELTA
    ensures m.zoom - INCREMENT_DELTA < MIN_ZOOM ==> r.zoom == MIN_ZOOM
    ensures m.zoom == MIN_ZOOM ==> r == m
  {
    SetZoom(m, m.zoom - INCREMENT_DELTA)
  }

  /** canDecrement. */
  predicate CanDecrement(m: Zoom) {
    m.zoom > MIN_ZOOM
  }

  /** For a factor of at least 1, canDecrement holds exactly when decreaseZoom would change the factor. */
  lemma CanDecrementIffDecreaseChanges(m: Zoom)
    requires m.zoom >= MIN_ZOOM
    ensures CanDecrement(m) <==> DecreaseZoom(m).zoom < m.zoom
    ensures !CanDecrement(m) <==> DecreaseZoom(m) == m
  {
  }

  /** commit: announces the end of a zoom once; repeated commits without a change in between announce nothing. */
  function Commit(m: Zoom): (r: Zoom)
    ensures r.isCommited
    ensures r.zoom == m.zoom
    ensures !m.isCommited ==> r.dispatched == m.dispatched + [CommitZoom]
    ensures m.isCommited ==> r == m
  {
    if !m.isCommited then m.(isCommited := true, dispatched := m.dispatched + [CommitZoom]) else m
  }

  /** toggleZoomControls: asks for the zoom controls; nothing else changes. */
  function ToggleZoomControls(m: Zoom): (r: Zoom)
    ensures r.dispatched == m.dispatched + [BringUpZoomControls]
    ensures r.(dispatched := m.dispatched) == m
  {
    m.(dispatched := m.dispatched + [BringUpZoomControls])
  }

  function SetHorizontalScrollEnabled(m: Zoom, enabled: bool): (r: Zoom)
    ensures r.horizontalScrollEnabled == enabled
    ensures r.(horizontalScrollEnabled := m.horizontalScrollEnabled) == m
  {
    m.(horizontalScrollEnabled := enabled)
  }

  /** A commit right after a commit announces nothing. */
  lemma CommitTwiceDispatchesOnce(m: Zoom)
    ensures Commit(Commit(m)) == Commit(m)
    ensures |Commit(Commit(m)).dispatched| <= |m.dispatched| + 1
  {
  }

  /** After a real change, the next commit is announced again. */
  lemma ChangeReopensCommit(m: Zoom, z: real)
    requires AtLeastMin(z) != m.zoom
    ensures Commit(SetZoom(Commit(m), z)).dispatched[|Commit(SetZoom(Commit(m), z)).dispatched| - 1] == CommitZoom
    ensures |Commit(SetZoom(Commit(m), z)).dispatched| == |Commit(m).dispatched| + 2
  {
  }

  // ---------------------------------------------------------------------------
  // Any sequence of calls
  // ---------------------------------------------------------------------------

  datatype Call = SetTo(z: real) | Increase | Decrease | Toggle | CommitCall | SetScroll(enabled: bool)

  function Step(m: Zoom, c: Call): Zoom {
    match c
    case SetTo(z) => SetZoom(m, z)
    case Increase => IncreaseZoom(m)
    case Decrease => DecreaseZoom(m)
    case Toggle => ToggleZoomControls(m)
    case CommitCall => Commit(m)
    case SetScroll(enabled) => SetHorizontalScrollEnabled(m, enabled)
  }

  /** Applies the calls in order. */
  function Run(m: Zoom, calls: seq<Call>): Zoom
    decreases |calls|
  {
    if |calls| == 0 then m else Step(Run(m, calls[..|calls| - 1]), calls[|calls| - 1])
  }

  /** The factor announced last, or the initial factor when no change was announced. */
  function LastZoom(events: seq<ZoomEvent>): real
    decreases |events|
  {
    if |events| == 0 then INITIAL_ZOOM
    else if events[|events| - 1].ZoomChanged? then events[|events| - 1].newZoom
    else LastZoom(events[..|events| - 1])
  }

  /** The latest of the zoom-change and commit announcements is a commit. */
  predicate CommittedLast(events: seq<ZoomEvent>)
    decreases |events|
  {
    if |events| == 0 then false
    else if events[|events| - 1].CommitZoom? then true
    else if events[|events| - 1].ZoomChanged? then false
    else CommittedLast(events[..|events| - 1])
  }

  /**
    Every change announcement starts from the factor the previous ones left,
    really changes it, and lands on a factor of at least 1.
  */
  predicate Chained(events: seq<ZoomEvent>)
    decreases |events|
  {
    if |events| == 0 then true
    else
      var e := events[|events| - 1];
      && Chained(events[..|events| - 1])
      && (e.ZoomChanged? ==> e.oldZoom == LastZoom(events[..|events| - 1]) && e.newZoom != e.oldZoom && e.newZoom >= MIN_ZOOM)
  }

  /** The stored state agrees with the announcements made so far. */
  predicate Consistent(m: Zoom) {
    && m.zoom >= MIN_ZOOM
    && m.zoom == LastZoom(m.dispatched)
    && Chained(m.dispatched)
    && m.isCommited == CommittedLast(m.dispatched)
  }

  /** How the three summaries of the announcements change when one more is appended. */
  lemma Appended(events: seq<ZoomEvent>, e: ZoomEvent)
    ensures LastZoom(events + [e]) == if e.ZoomChanged? then e.newZoom else LastZoom(events)
    ensures CommittedLast(events + [e]) == if e.CommitZoom? then true else if e.ZoomChanged? then false else CommittedLast(events)
    ensures Chained(events + [e]) ==
              (Chained(events) && (e.ZoomChanged? ==> e.oldZoom == LastZoom(events) && e.newZoom != e.oldZoom && e.newZoom >= MIN_ZOOM))
  {
    assert (events + [e])[..|events|] == events;
  }

  lemma {:induction false} StepKeepsConsistent(m: Zoom, c: Call)
    requires Consistent(m)
    ensures Consistent(Step(m, c))
  {
    match c
    case SetTo(z) => ChangeKeepsConsistent(m, z);
    case Increase => ChangeKeepsConsistent(m, m.zoom + INCREMENT_DELTA);
    case Decrease => ChangeKeepsConsistent(m, m.zoom - INCREMENT_DELTA);
    case Toggle => Appended(m.dispatched, BringUpZoomControls);
    case CommitCall =>
      if !m.isCommited {
        Appended(m.dispatched, CommitZoom);
      }
    case SetScroll(_) =>
  }

  lemma {:induction false} ChangeKeepsConsistent(m: Zoom, z: real)
    requires Consistent(m)
    ensures Consistent(SetZoom(m, z))
  {
    var r := SetZoom(m, z);
    if r.zoom != m.zoom {
      Appended(m.dispatched, ZoomChanged(r.zoom, m.zoom));
    }
  }

  /**
    From the initial model, whatever the calls: the factor is at least 1 and is
    the last factor announced, the change announcements form a chain from 1,
    and the commit flag is set exactly when a commit was announced after the
    last change.
  */
  lemma {:induction false} RunKeepsConsistent(calls: seq<Call>)
    ensures Consistent(Run(NewZoom, calls))
    decreases |calls|
  {
    if |calls| > 0 {
      RunKeepsConsistent(calls[..|calls| - 1]);
      StepKeepsConsistent(Run(NewZoom, calls[..|calls| - 1]), calls[|calls| - 1]);
    }
  }

  /** After any calls, commit announces exactly when no commit followed the last change. */
  lemma CommitAnnouncesOnce(calls: seq<Call>)
    ensures var m := Run(NewZoom, calls);
            |Commit(m).dispatched| == |m.dispatched| + 1 <==> !CommittedLast(m.dispatched)
  {
    RunKeepsConsistent(calls);
  }
}
