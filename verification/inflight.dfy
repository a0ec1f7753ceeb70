/**
 `handleEdit` is asynchronous: between its start and its end the user can
 still reach the controls that are not disabled while a request is in
 flight. This module splits an edit into its two halves and interleaves the
 handlers that touch history or images between them, each offered under
 the condition the rendered page shows it: upload without a source image;
 with one, the panel's buttons and change image, undo with a working image
 and nothing in flight, a history entry's select and delete only for
 listed entries, and a click on the image while picking. The compounding
 switch and the key selector touch neither history nor images and are not
 interleaved.

 As written, the panel's "Flush" and "New" buttons and the header's
 change-image control stay enabled while processing. Changing the image
 mid-flight and then receiving the result leaves a history and a working
 image with no source image, and an upload in between files the old
 photo's edit into the new session. `Step` models that; `GuardedStep`
 additionally ignores reset and change-image while processing, as the
 edit buttons already do, and keeps the session consistent.
 */
module InFlight {

  import opened Types
  import opened Gemini
  import opened App

  /** The session plus the edit whose reply has not arrived yet. */
  datatype Live = Live(s: Session, inFlight: Option<PendingEdit>)

  datatype Event =
    | Begin(mode: EditMode, prompt: Option<string>, selection: Option<Selection>)
    | Complete(reply: Reply, id: string, timestamp: int)
    | UploadPhoto(base64: string, mime: string)
    | DiscardSession
    | FlushCanvas
    | RemoveEntry(id: string)
    | RevertLast
    | ShowEntry(item: HistoryItem)
    | PickPoint(sel: Selection)

  const Idle: Live := Live(Initial, None)

  /** The first half of `handleEdit`; the panel only offers it while nothing is in flight. */
  function BeginEdit(l: Live, mode: EditMode, prompt: Option<string>, selection: Option<Selection>): Live
  {
    if l.s.isProcessing then l
    else
      match StartEdit(l.s, mode, prompt, selection)
      case None => l
      case Some(p) => Live(Processing(l.s), Some(p))
  }

  /** The second half: the service answers and the `finally` block runs, on whatever the session has become. */
  function CompleteEdit(l: Live, reply: Reply, id: string, timestamp: int): Live
  {
    match l.inFlight
    case None => l
    case Some(p) =>
      Live(FinishEdit(l.s, p, Outcome(reply), id, timestamp), None)
  }

  /**
   The page as written: upload is shown only without a source image, and
   every other control only with one: the panel and change image always,
   undo only with a working image and nothing in flight, an entry's select
   and delete only for an entry of the current history, and the image takes
   a click only while picking, even while a request is in flight.
   */
  function Step(l: Live, e: Event): Live
  {
    match e
    case Begin(mode, prompt, sel) => if l.s.original.Some? then BeginEdit(l, mode, prompt, sel) else l
    case Complete(reply, id, ts) => CompleteEdit(l, reply, id, ts)
    case UploadPhoto(b, m) => if l.s.original.None? then l.(s := Upload(l.s, b, m)) else l
    case DiscardSession => if l.s.original.Some? then l.(s := ChangeImage(l.s)) else l
    case FlushCanvas => if l.s.original.Some? then l.(s := Reset(l.s)) else l
    case RemoveEntry(id) =>
      if l.s.original.Some? && exists k :: 0 <= k < |l.s.history| && l.s.history[k].id == id then l.(s := Delete(l.s, id))
      else l
    case RevertLast => if l.s.original.Some? && l.s.edited.Some? && !l.s.isProcessing then l.(s := Undo(l.s)) else l
    case ShowEntry(item) =>
      if l.s.original.Some? && item in l.s.history then l.(s := SelectFromHistory(l.s, item)) else l
    case PickPoint(sel) => if l.s.original.Some? && l.s.isSelectMode then l.(s := PickTarget(l.s, sel)) else l
  }

  /** The corrected page: reset and change image are disabled while processing. */
  function GuardedStep(l: Live, e: Event): Live
  {
    if (e.DiscardSession? || e.FlushCanvas?) && l.s.isProcessing then l else Step(l, e)
  }

  function LiveRun(l: Live, events: seq<Event>): Live
    decreases |events|
  {
    if |events| == 0 then l else LiveRun(Step(l, events[0]), events[1..])
  }

  function GuardedRun(l: Live, events: seq<Event>): Live
    decreases |events|
  {
    if |events| == 0 then l else GuardedRun(GuardedStep(l, events[0]), events[1..])
  }

  /** Consistency of the live session: the session invariant, and a request is in flight exactly while processing, from a session with a source image. */
  ghost predicate LiveValid(l: Live)
  {
    && Valid(l.s)
    && (l.inFlight.Some? <==> l.s.isProcessing)
    && (l.inFlight.Some? ==> l.s.original.Some?)
  }

  /** Starting an edit and immediately receiving its reply is the atomic `Edit` of the session model. */
  lemma BeginThenCompleteIsEdit(
    s: Session, mode: EditMode, prompt: Option<string>, selection: Option<Selection>,
    reply: Reply, id: string, timestamp: int)
    requires !s.isProcessing
    ensures CompleteEdit(BeginEdit(Live(s, None), mode, prompt, selection), reply, id, timestamp)
            == Live(Edit(s, mode, prompt, selection, reply, id, timestamp), None)
  {
  }

  /** An edit can start: nothing is in flight, the session is consistent and there is a base image. */
  ghost predicate CanBegin(l: Live)
  {
    LiveValid(l) && !l.s.isProcessing && Truthy(EditBase(l.s))
  }

  /**
   The race as written: start an edit, change the image while it is in
   flight, then receive an image. The reply lands in a session without a
   source image, which now has a history entry and a working image,
   breaking the session invariant that every other step keeps.
   */
  lemma ChangeImageDuringEditBreaksSession(
    l: Live, mode: EditMode, prompt: Option<string>, selection: Option<Selection>,
    reply: Reply, id: string, timestamp: int)
    requires CanBegin(l)
    requires reply.Replied? && HasImage(reply.response)
    ensures var r := LiveRun(l, [Begin(mode, prompt, selection), DiscardSession, Complete(reply, id, timestamp)]);
      && r.s.original.None? && |r.s.history| == 1 && r.s.edited == DecodeResponse(reply.response)
      && !Valid(r.s)
  {
    var events := [Begin(mode, prompt, selection), DiscardSession, Complete(reply, id, timestamp)];
    var l1 := Step(l, events[0]);
    var l2 := Step(l1, events[1]);
    var r := Step(l2, events[2]);
    assert l1.inFlight.Some? && l1.s.original.Some?;
    assert l2.s.original.None? && l2.s.history == [] && l2.inFlight == l1.inFlight;
    assert LiveRun(l2, events[2..]) == r by {
      assert events[2..][1..] == [];
    }
    assert LiveRun(l, events) == r by {
      assert events[1..][1..] == events[2..];
    }
  }

  /**
   Uploading a new photo while the request is still in flight files the old
   photo's edit as the first entry of the new session and shows its result.
   */
  lemma UploadDuringEditMixesSessions(
    l: Live, mode: EditMode, prompt: Option<string>, selection: Option<Selection>,
    reply: Reply, id: string, timestamp: int, base64: string, mime: string)
    requires CanBegin(l)
    requires reply.Replied? && HasImage(reply.response)
    ensures var r := LiveRun(l, [Begin(mode, prompt, selection), DiscardSession, UploadPhoto(base64, mime),
                                 Complete(reply, id, timestamp)]);
      && r.s.original == Some(base64)
      && |r.s.history| == 1 && Some(r.s.history[0].original) == EditBase(l.s)
      && r.s.edited == DecodeResponse(reply.response)
  {
    var events := [Begin(mode, prompt, selection), DiscardSession, UploadPhoto(base64, mime), Complete(reply, id, timestamp)];
    var l1 := Step(l, events[0]);
    var l2 := Step(l1, events[1]);
    var l3 := Step(l2, events[2]);
    var r := Step(l3, events[3]);
    assert l3.s.original == Some(base64) && l3.s.history == [] && l3.inFlight == l1.inFlight;
    assert LiveRun(l3, events[3..]) == r by {
      assert events[3..][1..] == [];
    }
    assert LiveRun(l1, events[1..]) == r by {
      assert events[1..][1..] == events[2..];
      assert events[2..][1..] == events[3..];
    }
  }

  /**
   Under the guard the same interleaving is harmless: the change of image
   is ignored and the result is exactly the atomic edit of the session
   model, which keeps the session consistent.
   */
  lemma GuardedRaceIsAtomicEdit(
    l: Live, mode: EditMode, prompt: Option<string>, selection: Option<Selection>,
    reply: Reply, id: string, timestamp: int)
    requires CanBegin(l)
    ensures var r := GuardedRun(l, [Begin(mode, prompt, selection), DiscardSession, Complete(reply, id, timestamp)]);
      && r == Live(Edit(l.s, mode, prompt, selection, reply, id, timestamp), None)
      && LiveValid(r)
  {
    var events := [Begin(mode, prompt, selection), DiscardSession, Complete(reply, id, timestamp)];
    var l1 := GuardedStep(l, events[0]);
    var l2 := GuardedStep(l1, events[1]);
    var r := GuardedStep(l2, events[2]);
    assert l2 == l1;
    BeginThenCompleteIsEdit(l.s, mode, prompt, selection, reply, id, timestamp);
    assert GuardedRun(l2, events[2..]) == r by {
      assert events[2..][1..] == [];
    }
    assert GuardedRun(l, events) == r by {
      assert events[1..][1..] == events[2..];
    }
    StepPreservesValid(l.s, SubmitEdit(mode, prompt, selection, reply, id, timestamp));
  }

  /** Every guarded step keeps the live session consistent. */
  lemma GuardedStepPreservesValid(l: Live, e: Event)
    requires LiveValid(l)
    ensures LiveValid(GuardedStep(l, e))
  {
    if (e.DiscardSession? || e.FlushCanvas?) && l.s.isProcessing {
      return;
    }
    match e
    case Begin(mode, prompt, sel) =>
    case Complete(reply, id, ts) =>
      if l.inFlight.Some? {
        var p := l.inFlight.value;
        var r := FinishEdit(l.s, p, Outcome(reply), id, ts);
        if Outcome(reply).Produced? && Outcome(reply).uri != "" {
          assert r.history[0].edited == r.edited.value;
        }
      }
    case UploadPhoto(b, m) =>
    case DiscardSession =>
    case FlushCanvas =>
    case RemoveEntry(id) =>
      var r := Delete(l.s, id);
      if r.history != [] {
        assert r.history[0].edited == r.edited.value;
      }
    case PickPoint(sel) =>
    case RevertLast =>
      if l.s.edited.Some? && !l.s.isProcessing {
        var r := Undo(l.s);
        if r.history != [] {
          assert r.history[0].edited == r.edited.value;
        }
      }
    case ShowEntry(item) =>
      if item in l.s.history {
        var k :| 0 <= k < |l.s.history| && l.s.history[k] == item;
      }
  }

  /**
   With reset and change image disabled while processing, any interleaving
   of edit starts, replies and the other handlers keeps history, working
   image and source image consistent.
   */
  lemma {:induction false} GuardedRunPreservesValid(l: Live, events: seq<Event>)
    requires LiveValid(l)
    ensures LiveValid(GuardedRun(l, events))
    decreases |events|
  {
    if |events| > 0 {
      GuardedStepPreservesValid(l, events[0]);
      GuardedRunPreservesValid(GuardedStep(l, events[0]), events[1..]);
    }
  }

  lemma IdleValid()
    ensures LiveValid(Idle)
  {
  }
}
