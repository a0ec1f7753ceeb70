/**
 The edit controls of `components/ActionPanel.tsx`: which controls are
 disabled, and which edit request, if any, a click forms. The panel's
 `onEdit` carries a mode and an optional text but no selection, so the
 target of an edit always comes from the session's picked point.
 */
module Panel {

  import opened Types
  import opened Js
  import opened Gemini
  import opened App

  /** The panel's own state: the last mode fired and the two text fields. */
  datatype PanelState = PanelState(lastMode: Option<EditMode>, objectToRemove: string, customPrompt: string)

  /** An `onEdit(mode, prompt?)` call. */
  datatype EditRequest = EditRequest(mode: EditMode, prompt: Option<string>)

  /** The panel's buttons: cutout, pick area, the eraser's OK, restore, portrait and synthesize. */
  datatype Control = Cutout | PickArea | RemoveOk | Restore | Portrait | Synthesize

  /** What a click does outside the panel. */
  datatype Effect = NoEffect | TogglePicking | RequestEdit(request: EditRequest)

  const InitialPanel: PanelState := PanelState(None, "", "")

  /** `handleModeAction`: remember the mode and forward mode and text unchanged. */
  function ModeAction(p: PanelState, mode: EditMode, prompt: Option<string>): (r: (PanelState, EditRequest))
    ensures r.0 == p.(lastMode := Some(mode))
    ensures r.1 == EditRequest(mode, prompt)
  {
    (p.(lastMode := Some(mode)), EditRequest(mode, prompt))
  }

  /**
   `handleRemoveObject`: fires only when the description is not blank or a
   point is picked, and then forwards the description untrimmed.
   */
  function RemoveObjectAction(p: PanelState, hasSelection: bool): (r: (PanelState, Option<EditRequest>))
    ensures r.1.Some? <==> !IsBlank(p.objectToRemove) || hasSelection
    ensures r.1.Some? ==> r.1.value == EditRequest(RemoveObject, Some(p.objectToRemove))
                          && r.0 == p.(lastMode := Some(RemoveObject))
    ensures r.1.None? ==> r.0 == p
  {
    if IsBlank(p.objectToRemove) && !hasSelection then
      (p, None)
    else
      var (p', req) := ModeAction(p, RemoveObject, Some(p.objectToRemove));
      (p', Some(req))
  }

  /** The `disabled` expression of each control. */
  predicate Disabled(c: Control, p: PanelState, isProcessing: bool, hasSelection: bool)
  {
    match c
    case Cutout => isProcessing
    case PickArea => isProcessing
    case RemoveOk => isProcessing || (IsBlank(p.objectToRemove) && !hasSelection)
    case Restore => isProcessing
    case Portrait => isProcessing
    case Synthesize => isProcessing || IsBlank(p.customPrompt)
  }

  /** The mode each edit control is labelled with; picking an area is not an edit. */
  function ControlMode(c: Control): Option<EditMode>
  {
    match c
    case Cutout => Some(RemoveBackground)
    case PickArea => None
    case RemoveOk => Some(RemoveObject)
    case Restore => Some(Enhance)
    case Portrait => Some(BlurBackground)
    case Synthesize => Some(CustomPrompt)
  }

  /** An edit request the core can act on: what each mode needs from the text. */
  predicate WellFormed(req: EditRequest, hasSelection: bool)
  {
    match req.mode
    case RemoveObject => req.prompt.Some? && (!IsBlank(req.prompt.value) || hasSelection)
    case CustomPrompt => req.prompt.Some? && !IsBlank(req.prompt.value)
    case _ => req.prompt.None?
  }

  /**
   A click on a control. A disabled control does nothing; in particular no
   control forms an edit while a request is in flight, and every edit it
   does form is well formed and recorded as the last mode.
   */
  function Click(c: Control, p: PanelState, isProcessing: bool, hasSelection: bool): (r: (PanelState, Effect))
    ensures Disabled(c, p, isProcessing, hasSelection) ==> r == (p, NoEffect)
    ensures isProcessing ==> !r.1.RequestEdit?
    ensures r.1.RequestEdit? <==> !Disabled(c, p, isProcessing, hasSelection) && ControlMode(c).Some?
    ensures r.1.RequestEdit? ==> ControlMode(c) == Some(r.1.request.mode)
    ensures r.1 == TogglePicking <==> c == PickArea && !isProcessing
    ensures !r.1.RequestEdit? ==> r.0 == p
    ensures r.1.RequestEdit? ==>
      && WellFormed(r.1.request, hasSelection)
      && r.0 == p.(lastMode := Some(r.1.request.mode))
    ensures r.1.RequestEdit? && r.1.request.mode == RemoveObject ==> r.1.request.prompt == Some(p.objectToRemove)
    ensures r.1.RequestEdit? && r.1.request.mode == CustomPrompt ==> r.1.request.prompt == Some(p.customPrompt)
  {
    if Disabled(c, p, isProcessing, hasSelection) then
      (p, NoEffect)
    else
      match c
      case Cutout =>
        var (p', req) := ModeAction(p, RemoveBackground, None);
        (p', RequestEdit(req))
      case PickArea => (p, TogglePicking)
      case RemoveOk =>
        var (p', req) := RemoveObjectAction(p, hasSelection);
        if req.Some? then (p', RequestEdit(req.value)) else (p', NoEffect)
      case Restore =>
        var (p', req) := ModeAction(p, Enhance, None);
        (p', RequestEdit(req))
      case Portrait =>
        var (p', req) := ModeAction(p, BlurBackground, None);
        (p', RequestEdit(req))
      case Synthesize =>
        var (p', req) := ModeAction(p, CustomPrompt, Some(p.customPrompt));
        (p', RequestEdit(req))
  }

  /** Typing a description: the field is disabled once a point is picked. */
  function TypeObject(p: PanelState, text: string, hasSelection: bool): PanelState
  {
    if hasSelection then p else p.(objectToRemove := text)
  }

  function TypeCustomPrompt(p: PanelState, text: string): PanelState
  {
    p.(customPrompt := text)
  }

  /**
   The OK button is disabled exactly when the eraser's own guard would
   refuse, so when nothing is in flight the button is enabled exactly when
   a click forms a request.
   */
  lemma OkButtonMatchesGuard(p: PanelState, hasSelection: bool)
    ensures !Disabled(RemoveOk, p, false, hasSelection) <==> RemoveObjectAction(p, hasSelection).1.Some?
    ensures !Disabled(RemoveOk, p, false, hasSelection) <==>
      (exists i :: 0 <= i < |p.objectToRemove| && !IsSpace(p.objectToRemove[i])) || hasSelection
  {
    BlankIffAllSpace(p.objectToRemove);
  }

  /**
   Once a point is picked the description field is locked: typing changes
   nothing, so the eraser's click is the same as before. Without a point,
   typing replaces the description and leaves everything else alone.
   */
  lemma TypingRespectsLock(p: PanelState, text: string, isProcessing: bool)
    ensures TypeObject(p, text, true) == p
    ensures Click(RemoveOk, TypeObject(p, text, true), isProcessing, true) == Click(RemoveOk, p, isProcessing, true)
    ensures TypeObject(p, text, false) == p.(objectToRemove := text)
  {
  }

  /** The synthesize button follows the text typed last: enabled exactly when it is not blank and nothing is in flight. */
  lemma TypingDecidesSynthesize(p: PanelState, text: string, isProcessing: bool, hasSelection: bool)
    ensures !Disabled(Synthesize, TypeCustomPrompt(p, text), isProcessing, hasSelection)
            <==> !isProcessing && exists i :: 0 <= i < |text| && !IsSpace(text[i])
    ensures TypeCustomPrompt(p, text) == p.(customPrompt := text)
  {
    BlankIffAllSpace(text);
  }

  /** The panel's inputs as the session hands them over. */
  function HasSelection(s: Session): bool
  {
    s.pendingSelection.Some?
  }

  /**
   Wiring of the panel into the session: an edit formed by a click never
   starts while another is in flight, and it targets the session's picked
   point, because `onEdit` passes no selection of its own.
   */
  lemma PanelEditTargetsPickedPoint(c: Control, p: PanelState, s: Session)
    requires Click(c, p, s.isProcessing, HasSelection(s)).1.RequestEdit?
    ensures var req := Click(c, p, s.isProcessing, HasSelection(s)).1.request;
      && !s.isProcessing
      && (StartEdit(s, req.mode, req.prompt, None).Some? ==>
            StartEdit(s, req.mode, req.prompt, None).value.target == s.pendingSelection)
  {
  }

  /**
   The instruction a panel edit leads to never quotes a blank object
   description or a blank custom text: the eraser quotes its description
   only when no point is picked, and then the description is not blank.
   */
  lemma PanelEditQuotesNonBlankText(c: Control, p: PanelState, s: Session)
    requires Click(c, p, s.isProcessing, HasSelection(s)).1.RequestEdit?
    ensures var req := Click(c, p, s.isProcessing, HasSelection(s)).1.request;
      && (req.mode == RemoveObject && s.pendingSelection.None? ==>
            && !IsBlank(p.objectToRemove)
            && Includes(BuildPrompt(req.mode, req.prompt, s.pendingSelection), DescriptionContext(Some(p.objectToRemove))))
      && (req.mode == CustomPrompt ==>
            && !IsBlank(p.customPrompt)
            && UserRequestOf(BuildPrompt(req.mode, req.prompt, s.pendingSelection)) == p.customPrompt)
  {
    var req := Click(c, p, s.isProcessing, HasSelection(s)).1.request;
    if req.mode == RemoveObject {
      ObjectRemovalTarget(req.prompt, req.prompt, Selection(0.0, 0.0));
    }
    if req.mode == CustomPrompt {
      CustomPromptEmbedsText(p.customPrompt, s.pendingSelection);
    }
  }
}
