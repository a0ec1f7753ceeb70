/**
 The session state of `App.tsx` as one immutable record, and each of its
 handlers as a pure transition on that record.

 The backend's answer to an edit, the history entry's id and its timestamp
 are parameters of `Edit`; the confirmation dialog in front of the
 destructive handlers is presentation and is not modelled, so `Delete`,
 `Undo`, `ChangeImage` and `Reset` are the confirmed transitions.
 */
module App {

  import opened Types
  import opened Js
  import opened Gemini

  /** The banner state: a message and the two flags that decide the remediation button. */
  datatype ErrorInfo = ErrorInfo(message: string, isNotFound: bool, isQuota: bool)

  datatype Session = Session(
    original: Option<string>,
    mimeType: string,
    edited: Option<string>,
    history: seq<HistoryItem>,
    pendingSelection: Option<Selection>,
    isSelectMode: bool,
    applyToResult: bool,
    isProcessing: bool,
    error: Option<ErrorInfo>)

  /** The state before anything is uploaded. */
  const Initial: Session := Session(None, "image/png", None, [], None, false, true, false, None)

  /* ---------------------------------------------------------------------- */
  /* The consistency invariant                                               */
  /* ---------------------------------------------------------------------- */

  /** The working image is one that some history entry produced. */
  ghost predicate EditedFromHistory(s: Session)
  {
    s.edited.Some? ==> exists i :: 0 <= i < |s.history| && s.history[i].edited == s.edited.value
  }

  /**
   History and working image never disagree: without history there is no
   working image, a working image is the result of some entry, and without a
   source image there is neither.
   */
  ghost predicate Valid(s: Session)
  {
    && (s.history == [] ==> s.edited.None?)
    && EditedFromHistory(s)
    && (s.original.None? ==> s.history == [] && s.edited.None?)
  }

  /* ---------------------------------------------------------------------- */
  /* Upload                                                                  */
  /* ---------------------------------------------------------------------- */

  /** `handleUpload`: a new source image starts a fresh session, nothing of the old one kept. */
  function Upload(s: Session, base64: string, mime: string): Session
  {
    s.(original := Some(base64), mimeType := mime, edited := None, error := None,
       pendingSelection := None, isSelectMode := false, applyToResult := true, history := [])
  }

  /* ---------------------------------------------------------------------- */
  /* Edit                                                                    */
  /* ---------------------------------------------------------------------- */

  /** The image the next edit starts from: the working image when compounding and there is one, else the source. */
  function EditBase(s: Session): Option<string>
  {
    if s.applyToResult && Truthy(s.edited) then s.edited else s.original
  }

  /** `selection || pendingSelection || undefined`. */
  function TargetSelection(selection: Option<Selection>, pending: Option<Selection>): Option<Selection>
  {
    if selection.Some? then selection else pending
  }

  /** What `handleEdit` captures when it starts: the base, what it sends, and the edit's parameters. */
  datatype PendingEdit = PendingEdit(
    base: string,
    payload: Option<string>,
    mimeType: string,
    mode: EditMode,
    prompt: Option<string>,
    target: Option<Selection>)

  /**
   The start of `handleEdit`: nothing happens without a base image;
   otherwise the payload is the base's second comma-separated piece and the
   MIME type is the uploaded one, whatever the base is.
   */
  function StartEdit(s: Session, mode: EditMode, prompt: Option<string>, selection: Option<Selection>)
    : (p: Option<PendingEdit>)
    ensures p.None? <==> !Truthy(EditBase(s))
    ensures p.Some? ==>
      && Some(p.value.base) == EditBase(s)
      && p.value.payload == SecondPiece(p.value.base, ',')
      && p.value.mimeType == s.mimeType
      && p.value.target == (if selection.Some? then selection else s.pendingSelection)
      && p.value.mode == mode && p.value.prompt == prompt
  {
    var base := EditBase(s);
    if !Truthy(base) then
      None
    else
      Some(PendingEdit(base.value, SecondPiece(base.value, ','), s.mimeType, mode, prompt,
                       TargetSelection(selection, s.pendingSelection)))
  }

  /** The state while the request is in flight. */
  function Processing(s: Session): Session
  {
    s.(isProcessing := true, error := None)
  }

  /** The request an in-flight edit sent. */
  function RequestOf(p: PendingEdit): Request
  {
    BuildRequest(p.payload, p.mimeType, p.mode, p.prompt, p.target)
  }

  const NoImageMessage: string :=
    "Engine was unable to generate an image for this request. Try adjusting your parameters or picking a different area."
  const NotFoundMessage: string :=
    "API Entity mismatch. Your current project may not have access to these vision models."
  const QuotaMessage: string :=
    "Vision Lab Quota Exceeded. Please try again in a moment or switch to a paid API key for higher throughput."
  const PermissionMessage: string :=
    "Permission Denied. Ensure your API project has Billing enabled for these specific models."
  const UnexpectedMessage: string :=
    "Neural Synthesis encountered an unexpected error."

  /** `err.message || ""`. */
  function MessageOf(e: BackendError): string
  {
    if Truthy(e.message) then e.message.value else ""
  }

  /** `t` appears somewhere in `s`, as a specification independent of the scan. */
  ghost predicate Mentions(s: string, t: string)
  {
    exists i :: OccursAt(s, t, i)
  }

  ghost predicate NotFoundSignal(e: BackendError)
  {
    || Mentions(MessageOf(e), "Requested entity was not found")
    || Mentions(e.serialized, "NOT_FOUND")
    || Mentions(MessageOf(e), "404")
  }

  ghost predicate QuotaSignal(e: BackendError)
  {
    || Mentions(MessageOf(e), "429")
    || Mentions(MessageOf(e), "RESOURCE_EXHAUSTED")
    || Mentions(MessageOf(e), "quota")
    || Mentions(MessageOf(e), "limit")
  }

  ghost predicate PermissionSignal(e: BackendError)
  {
    || Mentions(MessageOf(e), "403")
    || Mentions(MessageOf(e), "PERMISSION_DENIED")
    || Mentions(e.serialized, "403")
  }

  /**
   The error classifier of `handleEdit`'s catch block. The checks are
   ordered: not-found wins over quota, quota over permission, and a
   permission problem raises the not-found flag. Anything else shows the
   error's own message, or a default when it has none.
   */
  function ClassifyError(e: BackendError): (r: ErrorInfo)
    ensures r.isNotFound <==> NotFoundSignal(e) || (!QuotaSignal(e) && PermissionSignal(e))
    ensures r.isQuota <==> !NotFoundSignal(e) && QuotaSignal(e)
    ensures !(r.isNotFound && r.isQuota)
    ensures NotFoundSignal(e) ==> r.message == NotFoundMessage
    ensures !NotFoundSignal(e) && QuotaSignal(e) ==> r.message == QuotaMessage
    ensures !NotFoundSignal(e) && !QuotaSignal(e) && PermissionSignal(e) ==> r.message == PermissionMessage
    ensures !NotFoundSignal(e) && !QuotaSignal(e) && !PermissionSignal(e) ==>
      r.message == (if MessageOf(e) != "" then MessageOf(e) else UnexpectedMessage)
    ensures r.message != ""
  {
    var msg := MessageOf(e);
    var errorStr := e.serialized;
    var isEntityNotFound :=
      Includes(msg, "Requested entity was not found") || Includes(errorStr, "NOT_FOUND") || Includes(msg, "404");
    var isQuota :=
      Includes(msg, "429") || Includes(msg, "RESOURCE_EXHAUSTED") || Includes(msg, "quota") || Includes(msg, "limit");
    if isEntityNotFound then
      ErrorInfo(NotFoundMessage, true, false)
    else if isQuota then
      ErrorInfo(QuotaMessage, false, true)
    else if Includes(msg, "403") || Includes(msg, "PERMISSION_DENIED") || Includes(errorStr, "403") then
      ErrorInfo(PermissionMessage, true, false)
    else
      ErrorInfo(if msg != "" then msg else UnexpectedMessage, false, false)
  }

  /** The banner offers to switch API project exactly for the not-found and quota flags. */
  predicate ShowsRemediation(e: ErrorInfo)
  {
    e.isNotFound || e.isQuota
  }

  /** The remediation button's caption. */
  function RemediationCaption(e: ErrorInfo): string
  {
    if e.isQuota then "Switch to Paid Project" else "Select New Project"
  }

  /**
   A thrown error offers the project switch exactly when it signals
   not-found, quota or permission, and the caption names the paid project
   exactly for quota.
   */
  lemma RemediationIffProviderSignal(e: BackendError)
    ensures ShowsRemediation(ClassifyError(e)) <==> NotFoundSignal(e) || QuotaSignal(e) || PermissionSignal(e)
    ensures ShowsRemediation(ClassifyError(e)) ==>
      (RemediationCaption(ClassifyError(e)) == "Switch to Paid Project" <==> !NotFoundSignal(e) && QuotaSignal(e))
  {
  }

  /** The banner for a reply without an image never offers the project switch. */
  const NoImageError: ErrorInfo := ErrorInfo(NoImageMessage, false, false)

  /**
   The history label of a committed edit. Background removal, enhancement
   and blur have fixed labels, as has object removal at a picked point;
   otherwise the user's text, or a default when it is empty or absent.
   */
  function HistoryLabel(mode: EditMode, prompt: Option<string>, target: Option<Selection>): (r: string)
    ensures mode == RemoveBackground ==> r == "Alpha Extraction"
    ensures mode == Enhance ==> r == "Visual Polish"
    ensures mode == BlurBackground ==> r == "Depth Focus"
    ensures mode == RemoveObject && target.Some? ==> r == "Smart Erasure"
    ensures mode == CustomPrompt || (mode == RemoveObject && target.None?) ==>
      r == (if Truthy(prompt) then prompt.value else "Neural Transformation")
    ensures r != ""
  {
    var promptText := if Truthy(prompt) then prompt.value else "Neural Transformation";
    var t1 := if mode == RemoveBackground then "Alpha Extraction" else promptText;
    var t2 := if mode == Enhance then "Visual Polish" else t1;
    var t3 := if mode == BlurBackground then "Depth Focus" else t2;
    if target.Some? && mode == RemoveObject then "Smart Erasure" else t3
  }

  /**
   The end of `handleEdit`: a non-empty result is prepended to the history
   and becomes the working image; no image or an error leaves both alone and
   sets the banner. Whatever happened, processing, picking and the picked
   point are cleared.
   */
  function FinishEdit(s: Session, p: PendingEdit, result: EditResult, id: string, timestamp: int): Session
  {
    var s1 :=
      match result
      case Produced(uri) =>
        if uri != "" then
          var item := HistoryItem(id, p.base, uri, HistoryLabel(p.mode, p.prompt, p.target), timestamp);
          s.(edited := Some(uri), history := [item] + s.history)
        else
          s.(error := Some(NoImageError))
      case NoImage => s.(error := Some(NoImageError))
      case Failed(e) => s.(error := Some(ClassifyError(e)));
    s1.(isProcessing := false, isSelectMode := false, pendingSelection := None)
  }

  /**
   `handleEdit` as one step: start, one call to the service answered by
   `reply`, finish. The call's result is `Outcome(reply)`, whatever request
   `RequestOf` describes.
   */
  function Edit(
    s: Session, mode: EditMode, prompt: Option<string>, selection: Option<Selection>,
    reply: Reply, id: string, timestamp: int): (r: Session)
    ensures !Truthy(EditBase(s)) ==> r == s
    ensures Truthy(EditBase(s)) ==>
      && !r.isProcessing && !r.isSelectMode && r.pendingSelection.None?
      && r.original == s.original && r.mimeType == s.mimeType && r.applyToResult == s.applyToResult
    ensures Truthy(EditBase(s)) && reply.Replied? && HasImage(reply.response) ==>
      && DecodeResponse(reply.response).Some?
      && r.edited == DecodeResponse(reply.response)
      && r.history == [HistoryItem(id, EditBase(s).value, DecodeResponse(reply.response).value,
                                   HistoryLabel(mode, prompt, TargetSelection(selection, s.pendingSelection)),
                                   timestamp)] + s.history
      && r.error.None?
    ensures Truthy(EditBase(s)) && !(reply.Replied? && HasImage(reply.response)) ==>
      && r.edited == s.edited && r.history == s.history
      && r.error == Some(if reply.Threw? then ClassifyError(reply.error) else NoImageError)
  {
    match StartEdit(s, mode, prompt, selection)
    case None => s
    case Some(p) =>
      var result := Outcome(reply);
      assert result.Produced? ==> result.uri != "" by {
        if result.Produced? {
          assert StartsWith(result.uri, ImageUriScheme + ",");
        }
      }
      FinishEdit(Processing(s), p, result, id, timestamp)
  }

  /* ---------------------------------------------------------------------- */
  /* History transitions                                                     */
  /* ---------------------------------------------------------------------- */

  /** The working image a history implies: its newest entry's result, or none. */
  function HeadEdited(history: seq<HistoryItem>): Option<string>
  {
    if |history| > 0 then Some(history[0].edited) else None
  }

  /** Positions listed in strictly increasing order. */
  ghost predicate Increasing(idx: seq<int>)
  {
    forall k, l :: 0 <= k < l < |idx| ==> idx[k] < idx[l]
  }

  /** `kept[k]` is the entry at position `idx[k]`, and its id differs from `id`. */
  ghost predicate Picks(history: seq<HistoryItem>, id: string, kept: seq<HistoryItem>, idx: seq<int>)
  {
    && |idx| == |kept|
    && forall k :: 0 <= k < |idx| ==> 0 <= idx[k] < |history| && history[idx[k]].id != id && kept[k] == history[idx[k]]
  }

  /** Every position whose id differs from `id` is listed. */
  ghost predicate Covers(history: seq<HistoryItem>, id: string, idx: seq<int>)
  {
    forall j {:trigger j in idx} :: 0 <= j < |history| && history[j].id != id ==> j in idx
  }

  /**
   `idx` lists, in increasing order, exactly the positions of `history` whose
   id differs from `id`, and `kept` holds the entries at those positions:
   what `filter` keeps, in the order it keeps them.
   */
  ghost predicate KeptAt(history: seq<HistoryItem>, id: string, kept: seq<HistoryItem>, idx: seq<int>)
  {
    Picks(history, id, kept, idx) && Increasing(idx) && Covers(history, id, idx)
  }

  /** Every position moved one place on. */
  ghost function Shift(idx: seq<int>): (r: seq<int>)
    ensures |r| == |idx| && forall k :: 0 <= k < |idx| ==> r[k] == idx[k] + 1
  {
    if |idx| == 0 then [] else [idx[0] + 1] + Shift(idx[1..])
  }

  lemma ShiftPicks(history: seq<HistoryItem>, id: string, rest: seq<HistoryItem>, idx: seq<int>)
    requires |history| > 0 && Picks(history[1..], id, rest, idx)
    ensures Picks(history, id, rest, Shift(idx))
  {
    var shifted := Shift(idx);
    forall k | 0 <= k < |idx|
      ensures 0 <= shifted[k] < |history| && history[shifted[k]].id != id && rest[k] == history[shifted[k]]
    {
      assert history[shifted[k]] == history[1..][idx[k]];
    }
  }

  lemma ShiftIncreasing(idx: seq<int>)
    requires Increasing(idx)
    ensures Increasing(Shift(idx))
  {
  }

  lemma ShiftCovers(history: seq<HistoryItem>, id: string, idx: seq<int>)
    requires |history| > 0 && Covers(history[1..], id, idx)
    ensures forall j :: 1 <= j < |history| && history[j].id != id ==> j in Shift(idx)
  {
    var shifted := Shift(idx);
    forall j | 1 <= j < |history| && history[j].id != id
      ensures j in shifted
    {
      assert history[1..][j - 1] == history[j];
      assert j - 1 in idx;
      var k :| 0 <= k < |idx| && idx[k] == j - 1;
      assert shifted[k] == j;
    }
  }

  lemma ConsPicks(history: seq<HistoryItem>, id: string, rest: seq<HistoryItem>, shifted: seq<int>)
    requires |history| > 0 && history[0].id != id && Picks(history, id, rest, shifted)
    ensures Picks(history, id, [history[0]] + rest, [0] + shifted)
  {
    var idx', kept := [0] + shifted, [history[0]] + rest;
    forall k | 0 < k < |idx'|
      ensures idx'[k] == shifted[k - 1] && kept[k] == rest[k - 1]
    {
    }
  }

  lemma ConsIncreasing(shifted: seq<int>)
    requires Increasing(shifted) && forall k :: 0 <= k < |shifted| ==> shifted[k] >= 1
    ensures Increasing([0] + shifted)
  {
    var idx' := [0] + shifted;
    forall k, l | 0 <= k < l < |idx'|
      ensures idx'[k] < idx'[l]
    {
      assert idx'[l] == shifted[l - 1];
      if k > 0 {
        assert idx'[k] == shifted[k - 1];
      }
    }
  }

  lemma ConsCovers(history: seq<HistoryItem>, id: string, shifted: seq<int>)
    requires forall j :: 1 <= j < |history| && history[j].id != id ==> j in shifted
    ensures Covers(history, id, [0] + shifted)
  {
    var idx' := [0] + shifted;
    forall j | 0 <= j < |history| && history[j].id != id
      ensures j in idx'
    {
      if j > 0 {
        var k :| 0 <= k < |shifted| && shifted[k] == j;
        assert idx'[k + 1] == j;
      }
    }
  }

  /** A kept first entry goes in front, at position 0. */
  lemma KeptAtConsKept(history: seq<HistoryItem>, id: string, rest: seq<HistoryItem>, idx: seq<int>)
    requires |history| > 0 && KeptAt(history[1..], id, rest, idx) && history[0].id != id
    ensures KeptAt(history, id, [history[0]] + rest, [0] + Shift(idx))
  {
    ShiftPicks(history, id, rest, idx);
    ShiftIncreasing(idx);
    ShiftCovers(history, id, idx);
    ConsPicks(history, id, rest, Shift(idx));
    ConsIncreasing(Shift(idx));
    ConsCovers(history, id, Shift(idx));
  }

  /** A dropped first entry leaves the suffix's positions, moved one place on. */
  lemma KeptAtConsDropped(history: seq<HistoryItem>, id: string, rest: seq<HistoryItem>, idx: seq<int>)
    requires |history| > 0 && KeptAt(history[1..], id, rest, idx) && history[0].id == id
    ensures KeptAt(history, id, rest, Shift(idx))
  {
    ShiftPicks(history, id, rest, idx);
    ShiftIncreasing(idx);
    ShiftCovers(history, id, idx);
  }

  /** `history.filter(item => item.id !== id)`: the entries with another id, in their original order. */
  function WithoutId(history: seq<HistoryItem>, id: string): (r: seq<HistoryItem>)
    ensures forall x :: x in r <==> x in history && x.id != id
    ensures |r| <= |history|
    decreases |history|
  {
    if |history| == 0 then
      []
    else
      var rest := WithoutId(history[1..], id);
      var r := if history[0].id != id then [history[0]] + rest else rest;
      assert forall x :: x in r <==> x in history && x.id != id by {
        assert forall x :: x in history <==> x == history[0] || x in history[1..];
      }
      r
  }

  /**
   `filter` keeps order and multiplicity: the result is the entries at the
   increasing positions whose id differs, and at all of them.
   */
  lemma {:induction false} WithoutIdKeepsOrder(history: seq<HistoryItem>, id: string)
    ensures exists idx :: KeptAt(history, id, WithoutId(history, id), idx)
    decreases |history|
  {
    if |history| == 0 {
      assert KeptAt(history, id, WithoutId(history, id), []);
    } else {
      var rest := WithoutId(history[1..], id);
      WithoutIdKeepsOrder(history[1..], id);
      var idx :| KeptAt(history[1..], id, rest, idx);
      if history[0].id != id {
        KeptAtConsKept(history, id, rest, idx);
        assert WithoutId(history, id) == [history[0]] + rest;
        assert KeptAt(history, id, WithoutId(history, id), [0] + Shift(idx));
      } else {
        KeptAtConsDropped(history, id, rest, idx);
        assert KeptAt(history, id, WithoutId(history, id), Shift(idx));
      }
    }
  }

  /** Filtering out an id no entry carries changes nothing. */
  lemma {:induction false} WithoutIdAbsent(history: seq<HistoryItem>, id: string)
    requires forall k :: 0 <= k < |history| ==> history[k].id != id
    ensures WithoutId(history, id) == history
    decreases |history|
  {
    if |history| > 0 {
      var tail := history[1..];
      assert forall k :: 0 <= k < |tail| ==> tail[k] == history[k + 1];
      WithoutIdAbsent(tail, id);
      assert WithoutId(history, id) == [history[0]] + WithoutId(tail, id);
      assert history == [history[0]] + tail;
    }
  }

  /**
   The first entry `filter` keeps is the newest entry with another id: every
   entry before position `k` carries `id`, and the one at `k` does not.
   */
  lemma WithoutIdHead(history: seq<HistoryItem>, id: string, k: int)
    requires 0 <= k < |history| && history[k].id != id
    requires forall j :: 0 <= j < k ==> history[j].id == id
    ensures |WithoutId(history, id)| > 0 && WithoutId(history, id)[0] == history[k]
  {
    var r := WithoutId(history, id);
    WithoutIdKeepsOrder(history, id);
    var idx :| KeptAt(history, id, r, idx);
    assert k in idx;
    var m :| 0 <= m < |idx| && idx[m] == k;
    assert history[idx[0]].id != id;
    assert idx[0] >= k;
  }

  /**
   `handleDeleteHistory`, confirmed: every entry with that id goes, the
   others stay in their order, and the working image becomes the newest
   survivor's result, or none, whichever entry was removed.
   */
  function Delete(s: Session, id: string): (r: Session)
    ensures r.history == WithoutId(s.history, id)
    ensures r == s.(history := r.history, edited := r.edited)
    ensures forall k :: 0 <= k < |r.history| ==> r.history[k].id != id
    ensures r.edited == HeadEdited(r.history)
    ensures r.history == [] <==> forall k :: 0 <= k < |s.history| ==> s.history[k].id == id
  {
    var newHistory := WithoutId(s.history, id);
    assert newHistory == [] <== forall k :: 0 <= k < |s.history| ==> s.history[k].id == id by {
      if newHistory != [] {
        assert newHistory[0] in newHistory;
      }
    }
    s.(history := newHistory, edited := HeadEdited(newHistory))
  }

  /**
   After a delete the working image is the result of the newest entry whose
   id differs, whatever was shown before.
   */
  lemma DeleteShowsNewestSurvivor(s: Session, id: string, k: int)
    requires 0 <= k < |s.history| && s.history[k].id != id
    requires forall j :: 0 <= j < k ==> s.history[j].id == id
    ensures Delete(s, id).edited == Some(s.history[k].edited)
  {
    WithoutIdHead(s.history, id, k);
  }

  /**
   `handleUndo`, confirmed: nothing on an empty history; otherwise the newest
   entry goes and the working image becomes the next one's result, or none.
   */
  function Undo(s: Session): (r: Session)
    ensures s.history == [] ==> r == s
    ensures s.history != [] ==> [s.history[0]] + r.history == s.history && r.edited == HeadEdited(r.history)
    ensures r == s.(history := r.history, edited := r.edited)
  {
    if |s.history| == 0 then
      s
    else
      var newHistory := s.history[1..];
      s.(history := newHistory, edited := HeadEdited(newHistory))
  }

  /** `handleChangeImage`, confirmed: back to no image at all. */
  function ChangeImage(s: Session): Session
  {
    s.(original := None, edited := None, error := None, isSelectMode := false,
       pendingSelection := None, history := [])
  }

  /** `handleReset`, confirmed: the source image stays, every edit goes. */
  function Reset(s: Session): Session
  {
    s.(edited := None, error := None, pendingSelection := None, isSelectMode := false, history := [])
  }

  /** `handleSelectFromHistory`: show an entry's result; the history itself is untouched. */
  function SelectFromHistory(s: Session, item: HistoryItem): Session
  {
    s.(edited := Some(item.edited), pendingSelection := None, isSelectMode := false)
  }

  /** The panel's pick-area button. */
  function ToggleSelectMode(s: Session): Session
  {
    s.(isSelectMode := !s.isSelectMode)
  }

  /** A click on the image while picking. */
  function PickTarget(s: Session, sel: Selection): Session
  {
    s.(pendingSelection := Some(sel))
  }

  /** The compound-mutations switch. */
  function ToggleApplyToResult(s: Session): Session
  {
    s.(applyToResult := !s.applyToResult)
  }

  /** `handleOpenKeySelector` once the key selector has returned. */
  function KeySelected(s: Session): Session
  {
    s.(error := None)
  }

  /* ---------------------------------------------------------------------- */
  /* The session as a machine                                                */
  /* ---------------------------------------------------------------------- */

  datatype Action =
    | UploadImage(base64: string, mime: string)
    | SubmitEdit(mode: EditMode, prompt: Option<string>, selection: Option<Selection>,
                 reply: Reply, id: string, timestamp: int)
    | DeleteEntry(id: string)
    | UndoLast
    | ChangeSourceImage
    | ResetCanvas
    | SelectEntry(item: HistoryItem)
    | ToggleSelect
    | Pick(sel: Selection)
    | ToggleCompound
    | KeySelectorReturned

  /**
   One handler call. The history panel lists only entries of the current
   history, so selecting anything else cannot happen; it changes nothing.
   */
  function Apply(s: Session, a: Action): Session
  {
    match a
    case UploadImage(b, m) => Upload(s, b, m)
    case SubmitEdit(mode, prompt, sel, reply, id, ts) => Edit(s, mode, prompt, sel, reply, id, ts)
    case DeleteEntry(id) => Delete(s, id)
    case UndoLast => Undo(s)
    case ChangeSourceImage => ChangeImage(s)
    case ResetCanvas => Reset(s)
    case SelectEntry(item) => if item in s.history then SelectFromHistory(s, item) else s
    case ToggleSelect => ToggleSelectMode(s)
    case Pick(sel) => PickTarget(s, sel)
    case ToggleCompound => ToggleApplyToResult(s)
    case KeySelectorReturned => KeySelected(s)
  }

  function Run(s: Session, actions: seq<Action>): Session
    decreases |actions|
  {
    if |actions| == 0 then s else Run(Apply(s, actions[0]), actions[1..])
  }

  /** Every handler keeps history and working image consistent. */
  lemma StepPreservesValid(s: Session, a: Action)
    requires Valid(s)
    ensures Valid(Apply(s, a))
  {
    match a
    case SubmitEdit(mode, prompt, sel, reply, id, ts) =>
      var r := Edit(s, mode, prompt, sel, reply, id, ts);
      if Truthy(EditBase(s)) && reply.Replied? && HasImage(reply.response) {
        assert r.history[0].edited == r.edited.value;
      } else if Truthy(EditBase(s)) {
        assert r.edited == s.edited && r.history == s.history;
      }
    case SelectEntry(item) =>
      if item in s.history {
        var k :| 0 <= k < |s.history| && s.history[k] == item;
      }
    case DeleteEntry(id) =>
      var r := Delete(s, id);
      if r.history != [] {
        assert r.history[0].edited == r.edited.value;
      }
    case UndoLast =>
      var r := Undo(s);
      if r.history != [] {
        assert r.history[0].edited == r.edited.value;
      }
    case _ =>
  }

  /**
   After any sequence of uploads, edits, deletions, undos, resets, image
   changes and selections, the working image is still one that the history
   produced, and there is none without history or without a source image.
   */
  lemma {:induction false} RunPreservesValid(s: Session, actions: seq<Action>)
    requires Valid(s)
    ensures Valid(Run(s, actions))
    decreases |actions|
  {
    if |actions| > 0 {
      StepPreservesValid(s, actions[0]);
      RunPreservesValid(Apply(s, actions[0]), actions[1..]);
    }
  }

  lemma InitialValid()
    ensures Valid(Initial)
  {
  }

  /* ---------------------------------------------------------------------- */
  /* Properties relating transitions                                         */
  /* ---------------------------------------------------------------------- */

  /**
   Upload always discards the previous session: the result does not depend
   on anything the session held before, except whether a request is in
   flight, so uploading after changing the image is the same as uploading
   directly. The new session holds the uploaded image and its MIME type, no
   history, working image, picked point or banner, and compounding on.
   */
  lemma UploadDiscardsSession(s1: Session, s2: Session, base64: string, mime: string)
    requires s1.isProcessing == s2.isProcessing
    ensures Upload(s1, base64, mime) == Upload(s2, base64, mime)
    ensures Upload(ChangeImage(s1), base64, mime) == Upload(s1, base64, mime)
    ensures Valid(Upload(s1, base64, mime))
    ensures EditBase(Upload(s1, base64, mime)) == Some(base64)
    ensures var u := Upload(s1, base64, mime);
      && u.original == Some(base64) && u.mimeType == mime
      && u.edited.None? && u.history == [] && u.pendingSelection.None?
      && !u.isSelectMode && u.applyToResult && u.error.None?
      && u.isProcessing == s1.isProcessing
  {
  }

  /**
   Undo after a successful edit takes the history back to what it was and
   shows the newest older entry's result (not necessarily what was shown
   before the edit, when an older entry had been selected).
   */
  lemma UndoRevertsEdit(
    s: Session, mode: EditMode, prompt: Option<string>, selection: Option<Selection>,
    reply: Reply, id: string, timestamp: int)
    requires Truthy(EditBase(s)) && reply.Replied? && HasImage(reply.response)
    ensures Undo(Edit(s, mode, prompt, selection, reply, id, timestamp)).history == s.history
    ensures Undo(Edit(s, mode, prompt, selection, reply, id, timestamp)).edited == HeadEdited(s.history)
  {
    var r := Edit(s, mode, prompt, selection, reply, id, timestamp);
    assert r.history[1..] == s.history;
  }

  /** Deleting a just-committed entry whose id is new also restores the history. */
  lemma DeleteRevertsEdit(
    s: Session, mode: EditMode, prompt: Option<string>, selection: Option<Selection>,
    reply: Reply, id: string, timestamp: int)
    requires Truthy(EditBase(s)) && reply.Replied? && HasImage(reply.response)
    requires forall k :: 0 <= k < |s.history| ==> s.history[k].id != id
    ensures Delete(Edit(s, mode, prompt, selection, reply, id, timestamp), id).history == s.history
  {
    var r := Edit(s, mode, prompt, selection, reply, id, timestamp);
    assert r.history[1..] == s.history;
    WithoutIdAbsent(s.history, id);
  }

  /**
   Reset keeps the source image, the MIME type and the compounding switch,
   and clears every edit, the banner, the picked point and picking; doing it
   twice is doing it once, and changing the image afterwards ends where
   changing it directly would.
   */
  lemma ResetProperties(s: Session)
    ensures Reset(s).original == s.original && Reset(s).history == [] && Reset(s).edited.None?
    ensures Reset(s).error.None? && Reset(s).pendingSelection.None? && !Reset(s).isSelectMode
    ensures Reset(s).mimeType == s.mimeType && Reset(s).applyToResult == s.applyToResult
            && Reset(s).isProcessing == s.isProcessing
    ensures Reset(Reset(s)) == Reset(s)
    ensures ChangeImage(Reset(s)) == ChangeImage(s)
    ensures EditBase(Reset(s)) == s.original
  {
  }

  /**
   Changing the image leaves nothing to edit: no source, no working image,
   no history and no base, so a following edit does nothing; the banner,
   the picked point and picking are cleared too. The uploaded MIME type and
   the compounding switch survive until the next upload, which overwrites
   them.
   */
  lemma ChangeImageClearsSession(s: Session)
    ensures Valid(ChangeImage(s))
    ensures ChangeImage(s).original.None? && ChangeImage(s).edited.None? && ChangeImage(s).history == []
    ensures EditBase(ChangeImage(s)).None?
    ensures ChangeImage(s).error.None? && ChangeImage(s).pendingSelection.None? && !ChangeImage(s).isSelectMode
    ensures ChangeImage(s).mimeType == s.mimeType && ChangeImage(s).applyToResult == s.applyToResult
            && ChangeImage(s).isProcessing == s.isProcessing
    ensures ChangeImage(ChangeImage(s)) == ChangeImage(s)
    ensures forall mode, prompt, sel :: StartEdit(ChangeImage(s), mode, prompt, sel).None?
  {
  }

  /**
   Selecting an entry shows its result, drops the picked point and stops
   picking, and changes nothing else; the history stays as it is.
   */
  lemma SelectKeepsHistory(s: Session, item: HistoryItem)
    ensures SelectFromHistory(s, item).history == s.history
    ensures SelectFromHistory(s, item).edited == Some(item.edited)
    ensures SelectFromHistory(s, item).pendingSelection.None? && !SelectFromHistory(s, item).isSelectMode
    ensures SelectFromHistory(s, item) == s.(edited := Some(item.edited), pendingSelection := None, isSelectMode := false)
    ensures s.applyToResult && item.edited != "" ==> EditBase(SelectFromHistory(s, item)) == Some(item.edited)
  {
  }

  /**
   Compounding: after a successful edit the next one starts from its result
   when the switch is on, and from the source image when it is off.
   */
  lemma NextEditBase(
    s: Session, mode: EditMode, prompt: Option<string>, selection: Option<Selection>,
    reply: Reply, id: string, timestamp: int)
    requires Truthy(EditBase(s)) && reply.Replied? && HasImage(reply.response)
    ensures var r := Edit(s, mode, prompt, selection, reply, id, timestamp);
      EditBase(r) == (if s.applyToResult then DecodeResponse(reply.response) else s.original)
  {
    var r := Edit(s, mode, prompt, selection, reply, id, timestamp);
    var uri := DecodeResponse(reply.response).value;
    assert StartsWith(uri, ImageUriScheme + ",");
  }

  /**
   The payload strip undoes the service's wrapping: the piece after the
   first comma of a returned data URI is the returned base64 data, as long
   as that data has no comma (base64 never does).
   */
  lemma StripUndoesWrap(data: string)
    requires ',' !in data
    ensures SecondPiece(ImageUri(data), ',') == Some(data)
  {
    assert ',' !in ImageUriScheme;
    assert ImageUri(data) == ImageUriScheme + [','] + data;
    SplitAfterHead(ImageUriScheme, ',', data);
    SplitNoSeparator(data, ',');
  }

  /**
   Chained edits send the previous result's own data: after a successful
   compounding edit whose returned data has no comma, the next request's
   image part is exactly that data, labelled with the uploaded MIME type
   even though the service always returns PNG.
   */
  lemma ChainedEditSendsReturnedData(
    s: Session, mode: EditMode, prompt: Option<string>, selection: Option<Selection>,
    reply: Reply, id: string, timestamp: int,
    mode2: EditMode, prompt2: Option<string>, selection2: Option<Selection>, data: string)
    requires Truthy(EditBase(s)) && s.applyToResult
    requires Outcome(reply) == Produced(ImageUri(data)) && ',' !in data
    ensures var r := Edit(s, mode, prompt, selection, reply, id, timestamp);
      && StartEdit(r, mode2, prompt2, selection2).Some?
      && RequestOf(StartEdit(r, mode2, prompt2, selection2).value).parts[0] == ImagePart(Some(data), s.mimeType)
  {
    NextEditBase(s, mode, prompt, selection, reply, id, timestamp);
    StripUndoesWrap(data);
  }

  /**
   An edit sends what the user asked for: the request the pending edit
   carries is the one `editImage` builds from the stripped base, the
   uploaded MIME type, the caller's mode and text, and the effective target,
   and its instruction decodes back to the caller's mode.
   */
  lemma EditSendsUserInstruction(
    s: Session, mode: EditMode, prompt: Option<string>, selection: Option<Selection>, reply: Reply)
    requires Truthy(EditBase(s))
    ensures RequestOf(StartEdit(s, mode, prompt, selection).value)
            == EditImage(SecondPiece(EditBase(s).value, ','), s.mimeType, mode, prompt,
                         TargetSelection(selection, s.pendingSelection), reply).request
    ensures ModeOfPrompt(RequestOf(StartEdit(s, mode, prompt, selection).value).parts[1].text) == Some(mode)
  {
    PromptNamesItsMode(mode, prompt, TargetSelection(selection, s.pendingSelection));
  }
}
