/**
 The image-editing service call of `services/geminiService.ts`: the
 instruction text chosen per edit mode, the single request sent to the one
 fixed model, and the scan of the reply for the first part that carries
 inline image data, which comes back wrapped as a PNG data URI.

 The network call itself is not modelled: its reply (or the error it threw)
 is a parameter of `EditImage`.
 */
module Gemini {

  import opened Types
  import opened Js

  /** The one model every request goes to; there is no second model and no retry. */
  const ModelName: string := "gemini-2.5-flash-image"

  /** The image configuration every request carries. */
  const AspectRatio: string := "1:1"

  /** What the service puts in front of the returned base64 data, whatever the reply's MIME type. */
  const ImageUriScheme: string := "data:image/png;base64"

  /* ---------------------------------------------------------------------- */
  /* Instruction text                                                        */
  /* ---------------------------------------------------------------------- */

  const RemoveBackgroundHeader: string := "ACT AS AN ADVANCED ALPHA-CHANNEL EXTRACTION ENGINE."
  const RemoveObjectHeader: string := "ACT AS A WORLD-CLASS INPAINTING SPECIALIST."
  const EnhanceHeader: string := "ACT AS A PROFESSIONAL PHOTO EDITOR."
  const BlurBackgroundHeader: string := "ACT AS A CINEMATIC LENS SIMULATOR."
  const CustomPromptHeader: string := "Task: ARTISTIC NEURAL TRANSFORMATION."

  /** The first line of each mode's instruction; no two modes share one. */
  function Header(mode: EditMode): string
  {
    match mode
    case RemoveBackground => RemoveBackgroundHeader
    case RemoveObject => RemoveObjectHeader
    case Enhance => EnhanceHeader
    case BlurBackground => BlurBackgroundHeader
    case CustomPrompt => CustomPromptHeader
  }

  const RemoveBackgroundBody: string :=
    "\nTask: PROFESSIONAL SUBJECT ISOLATION (TRANSPARENT PNG)."
    + "\nInstructions:"
    + "\n1. Identify the primary subject(s) in the foreground with maximum precision."
    + "\n2. Remove all background elements, including sky, ground, and distant objects."
    + "\n3. CRITICAL: The resulting image MUST have a functional alpha channel."
    + "\n4. Set the Alpha value of all background pixels to 0 (100% transparent)."
    + "\n5. Ensure subject edges are clean, anti-aliased, and free of background color bleeding."
    + "\n6. Return the isolated subject as a high-quality transparent PNG."
    + "\n7. NO placeholder backgrounds. Only the subject on a truly transparent canvas."

  const EnhanceBody: string :=
    "\nTask: NEURAL ENHANCEMENT & UPSCALING."
    + "\nInstructions:"
    + "\n1. Increase local contrast and sharpness while suppressing digital noise."
    + "\n2. Optimize color balance, saturation, and dynamic range for a premium look."
    + "\n3. Simulate a high-end full-frame camera sensor fidelity."
    + "\n4. Fix compression artifacts and restore micro-textures."
    + "\n5. RETURN ONLY THE ENHANCED IMAGE DATA."

  const ObjectLead: string :=
    "\nTask: SEAMLESS OBJECT ERASURE & SCENE RECONSTRUCTION."
    + "\nContext: "

  const ObjectTail: string :=
    "\nInstructions:"
    + "\n1. Completely remove the target object, its shadows, reflections, and any related artifacts."
    + "\n2. Inpaint the resulting void by synthesizing the background textures, patterns, and lighting from the surrounding area."
    + "\n3. Ensure the reconstruction is mathematically and visually consistent with the rest of the scene's perspective and depth."
    + "\n4. The final result must be a single cohesive image where the object is entirely gone without a trace."
    + "\n5. RETURN ONLY THE EDITED IMAGE DATA."

  const StrictTargetLead: string := "STRICT TARGET: The object to be erased is located at normalized coordinates "

  /** `(X: …, Y: …)` with both coordinates printed by `toFixed(4)`. */
  function Coordinates(sel: Selection): string
  {
    "(X: " + ToFixed4(sel.x) + ", Y: " + ToFixed4(sel.y) + ")"
  }

  /** The object-removal target: the picked point when there is one, else the quoted description. */
  function TargetContext(customPrompt: Option<string>, selection: Option<Selection>): string
  {
    match selection
    case Some(sel) => StrictTargetLead + Coordinates(sel) + "."
    case None => DescriptionContext(customPrompt)
  }

  function DescriptionContext(customPrompt: Option<string>): string
  {
    "TARGET DESCRIPTION: \"" + Interp(customPrompt) + "\"."
  }

  const AutoFocus: string := "AUTO-FOCUS: Find the most prominent foreground subject."

  /** The blur's focus: an anchor at the picked point when there is one, else automatic subject detection. */
  function FocusPoint(selection: Option<Selection>): string
  {
    match selection
    case Some(sel) => AnchorAt(sel)
    case None => AutoFocus
  }

  function AnchorAt(sel: Selection): string
  {
    "FOCUS ANCHOR: Point at " + Coordinates(sel) + "."
  }

  const BlurLead: string :=
    "\nTask: DEPTH-AWARE BOKEH (PORTRAIT BLUR)."
    + "\nInstructions:"
    + "\n1. Keep the subject at the "

  const BlurTail: string :=
    " razor-sharp."
    + "\n2. Apply a smooth, progressive Gaussian blur to everything behind the subject."
    + "\n3. Simulate a fast f/1.4 prime lens aesthetic."
    + "\n4. Ensure the depth transition is natural and edges are masked perfectly."
    + "\n5. RETURN ONLY THE EDITED IMAGE DATA."

  const Quote: string := "\""

  /** What comes between the first line and the user's text in a custom-prompt instruction. */
  const CustomLead: string := "\nUser Request: " + Quote

  /** What comes after the user's text in a custom-prompt instruction. */
  const CustomTail: string :=
    Quote + ".\nMaintain the structure and identity of the source while applying the requested changes creatively and realistically. Return the resulting image data only."

  /** Everything after the first line of a mode's instruction. */
  function PromptBody(mode: EditMode, customPrompt: Option<string>, selection: Option<Selection>): string
  {
    match mode
    case RemoveBackground => RemoveBackgroundBody
    case RemoveObject => ObjectLead + TargetContext(customPrompt, selection) + ObjectTail
    case Enhance => EnhanceBody
    case BlurBackground => BlurLead + FocusPoint(selection) + BlurTail
    case CustomPrompt => CustomLead + Interp(customPrompt) + CustomTail
  }

  /** The instruction sent with the image: one template per mode. */
  function BuildPrompt(mode: EditMode, customPrompt: Option<string>, selection: Option<Selection>): string
  {
    Header(mode) + PromptBody(mode, customPrompt, selection)
  }

  predicate StartsWith(s: string, prefix: string)
  {
    |prefix| <= |s| && s[..|prefix|] == prefix
  }

  /** Reads the mode back from an instruction's first line. */
  function ModeOfPrompt(prompt: string): Option<EditMode>
  {
    if StartsWith(prompt, Header(CustomPrompt)) then Some(CustomPrompt)
    else if StartsWith(prompt, Header(RemoveBackground)) then Some(RemoveBackground)
    else if StartsWith(prompt, Header(RemoveObject)) then Some(RemoveObject)
    else if StartsWith(prompt, Header(Enhance)) then Some(Enhance)
    else if StartsWith(prompt, Header(BlurBackground)) then Some(BlurBackground)
    else None
  }

  /** Reads the user's text back out of a custom-prompt instruction. */
  function UserRequestOf(prompt: string): string
  {
    var lead := CustomPromptHeader + CustomLead;
    if |lead| + |CustomTail| <= |prompt| then
      prompt[|lead|..|prompt| - |CustomTail|]
    else
      ""
  }

  lemma MismatchAt(s: string, prefix: string, k: nat)
    requires k < |prefix| && k < |s| && s[k] != prefix[k]
    ensures !StartsWith(s, prefix)
  {
  }

  lemma HeaderStarts(mode: EditMode, rest: string)
    ensures StartsWith(Header(mode) + rest, Header(mode))
  {
    assert (Header(mode) + rest)[..|Header(mode)|] == Header(mode);
  }

  /** Whatever follows it, a mode's first line identifies that mode. */
  lemma HeaderDecidesMode(mode: EditMode, body: string)
    ensures ModeOfPrompt(Header(mode) + body) == Some(mode)
  {
    var p := Header(mode) + body;
    HeaderStarts(mode, body);
    assert p[8] == Header(mode)[8] && p[9] == Header(mode)[9];
    assert CustomPromptHeader[8] == 'T' && RemoveBackgroundHeader[8] == 'N';
    match mode
    case CustomPrompt =>
    case RemoveBackground =>
      MismatchAt(p, CustomPromptHeader, 8);
    case RemoveObject =>
      assert RemoveObjectHeader[8] == ' ';
      MismatchAt(p, CustomPromptHeader, 8);
      MismatchAt(p, RemoveBackgroundHeader, 8);
    case Enhance =>
      assert EnhanceHeader[8] == ' ' && EnhanceHeader[9] == 'P' && RemoveObjectHeader[9] == 'W';
      MismatchAt(p, CustomPromptHeader, 8);
      MismatchAt(p, RemoveBackgroundHeader, 8);
      MismatchAt(p, RemoveObjectHeader, 9);
    case BlurBackground =>
      assert BlurBackgroundHeader[8] == ' ' && BlurBackgroundHeader[9] == 'C';
      assert RemoveObjectHeader[9] == 'W' && EnhanceHeader[9] == 'P';
      MismatchAt(p, CustomPromptHeader, 8);
      MismatchAt(p, RemoveBackgroundHeader, 8);
      MismatchAt(p, RemoveObjectHeader, 9);
      MismatchAt(p, EnhanceHeader, 9);
  }

  /**
   Exactly one template per mode: whatever the text and the selection, the
   instruction built for a mode names that mode and no other.
   */
  lemma PromptNamesItsMode(mode: EditMode, customPrompt: Option<string>, selection: Option<Selection>)
    ensures ModeOfPrompt(BuildPrompt(mode, customPrompt, selection)) == Some(mode)
  {
    HeaderDecidesMode(mode, PromptBody(mode, customPrompt, selection));
  }

  /** Hence two different modes never produce the same instruction. */
  lemma DistinctModesDistinctPrompts(
    m1: EditMode, t1: Option<string>, s1: Option<Selection>,
    m2: EditMode, t2: Option<string>, s2: Option<Selection>)
    requires m1 != m2
    ensures BuildPrompt(m1, t1, s1) != BuildPrompt(m2, t2, s2)
  {
    PromptNamesItsMode(m1, t1, s1);
    PromptNamesItsMode(m2, t2, s2);
  }

  /** Background removal and enhancement send a fixed text: neither the user's text nor the selection matters. */
  lemma FixedPromptsIgnoreInputs(t1: Option<string>, s1: Option<Selection>, t2: Option<string>, s2: Option<Selection>)
    ensures BuildPrompt(RemoveBackground, t1, s1) == BuildPrompt(RemoveBackground, t2, s2)
    ensures BuildPrompt(Enhance, t1, s1) == BuildPrompt(Enhance, t2, s2)
  {
  }

  /**
   Object removal with a picked point targets that point's coordinates, to
   four decimals, and the user's text plays no part; without one, it quotes
   the user's text as the target description.
   */
  lemma ObjectRemovalTarget(t1: Option<string>, t2: Option<string>, sel: Selection)
    ensures BuildPrompt(RemoveObject, t1, Some(sel)) == BuildPrompt(RemoveObject, t2, Some(sel))
    ensures Includes(BuildPrompt(RemoveObject, t1, Some(sel)), Coordinates(sel))
    ensures Includes(BuildPrompt(RemoveObject, t1, None), DescriptionContext(t1))
  {
    var ctx := TargetContext(t1, Some(sel));
    IncludesMiddle(RemoveObjectHeader, ObjectLead, ctx, ObjectTail);
    IncludesInfix(StrictTargetLead, Coordinates(sel), ".");
    IncludesTransitive(BuildPrompt(RemoveObject, t1, Some(sel)), ctx, Coordinates(sel));
    IncludesMiddle(RemoveObjectHeader, ObjectLead, DescriptionContext(t1), ObjectTail);
  }

  /**
   Background blur with a picked point anchors focus at its coordinates and
   otherwise asks for automatic subject detection; the user's text never
   matters.
   */
  lemma BlurFocus(t1: Option<string>, t2: Option<string>, selection: Option<Selection>)
    ensures BuildPrompt(BlurBackground, t1, selection) == BuildPrompt(BlurBackground, t2, selection)
    ensures selection.Some? ==> Includes(BuildPrompt(BlurBackground, t1, selection), AnchorAt(selection.value))
    ensures selection.None? ==> Includes(BuildPrompt(BlurBackground, t1, selection), AutoFocus)
  {
    IncludesMiddle(BlurBackgroundHeader, BlurLead, FocusPoint(selection), BlurTail);
  }

  /**
   A custom prompt embeds the user's text verbatim between double quotes:
   the text can be read back out of the instruction unchanged, so different
   texts give different instructions.
   */
  lemma CustomPromptEmbedsText(t: string, selection: Option<Selection>)
    ensures UserRequestOf(BuildPrompt(CustomPrompt, Some(t), selection)) == t
    ensures Includes(BuildPrompt(CustomPrompt, Some(t), selection), Quote + t + Quote)
  {
    QuotedMiddle(CustomPromptHeader, "\nUser Request: ", t,
                 ".\nMaintain the structure and identity of the source while applying the requested changes creatively and realistically. Return the resulting image data only.");
  }

  lemma QuotedMiddle(h: string, a: string, t: string, b: string)
    ensures var p := h + ((a + Quote) + t + (Quote + b));
      && |h + (a + Quote)| + |Quote + b| <= |p|
      && p[|h + (a + Quote)|..|p| - |Quote + b|] == t
      && Includes(p, Quote + t + Quote)
  {
    var p := h + ((a + Quote) + t + (Quote + b));
    assert p == (h + a) + (Quote + t + Quote) + b;
    IncludesInfix(h + a, Quote + t + Quote, b);
    assert p == (h + (a + Quote)) + t + (Quote + b);
  }

  /* ---------------------------------------------------------------------- */
  /* Request                                                                 */
  /* ---------------------------------------------------------------------- */

  datatype RequestPart =
    | ImagePart(data: Option<string>, mimeType: string)
    | TextPart(text: string)

  datatype Request = Request(model: string, parts: seq<RequestPart>, aspectRatio: string)

  /* ---------------------------------------------------------------------- */
  /* Reply                                                                   */
  /* ---------------------------------------------------------------------- */

  datatype InlineData = InlineData(data: Option<string>, mimeType: Option<string>)

  datatype ResponsePart = ResponsePart(inlineData: Option<InlineData>, text: Option<string>)

  datatype Candidate = Candidate(parts: seq<ResponsePart>)

  datatype Response = Response(candidates: Option<seq<Candidate>>)

  /** An error thrown by the client library: its `message` and its JSON serialisation. */
  datatype BackendError = BackendError(message: Option<string>, serialized: string)

  /** What the one network call did: answered, or threw. */
  datatype Reply = Replied(response: Response) | Threw(error: BackendError)

  /** What `editImage` hands back: a data URI, `null`, or the rethrown error. */
  datatype EditResult = Produced(uri: string) | NoImage | Failed(error: BackendError)

  /** The request the service sent, together with what it made of the reply. */
  datatype EditCall = EditCall(request: Request, result: EditResult)

  /** The first part, in order, that carries inline data. */
  function FirstInlineData(parts: seq<ResponsePart>): (r: Option<InlineData>)
    ensures r.None? <==> forall i :: 0 <= i < |parts| ==> parts[i].inlineData.None?
    ensures r.Some? ==> exists i :: 0 <= i < |parts| && parts[i].inlineData == r
                                   && forall j :: 0 <= j < i ==> parts[j].inlineData.None?
    decreases |parts|
  {
    if |parts| == 0 then
      None
    else if parts[0].inlineData.Some? then
      parts[0].inlineData
    else
      var r := FirstInlineData(parts[1..]);
      FirstInlineAfterSkip(parts, r);
      r
  }

  /** A first part without inline data does not change which part comes first with it. */
  lemma FirstInlineAfterSkip(parts: seq<ResponsePart>, r: Option<InlineData>)
    requires |parts| > 0 && parts[0].inlineData.None?
    requires r.None? <==> forall i :: 0 <= i < |parts[1..]| ==> parts[1..][i].inlineData.None?
    requires r.Some? ==> exists i :: 0 <= i < |parts[1..]| && parts[1..][i].inlineData == r
                                     && forall j :: 0 <= j < i ==> parts[1..][j].inlineData.None?
    ensures r.None? <==> forall i :: 0 <= i < |parts| ==> parts[i].inlineData.None?
    ensures r.Some? ==> exists i :: 0 <= i < |parts| && parts[i].inlineData == r
                                   && forall j :: 0 <= j < i ==> parts[j].inlineData.None?
  {
    assert forall i :: 1 <= i < |parts| ==> parts[i] == parts[1..][i - 1];
    if r.Some? {
      var i :| 0 <= i < |parts[1..]| && parts[1..][i].inlineData == r
               && forall j :: 0 <= j < i ==> parts[1..][j].inlineData.None?;
      assert parts[i + 1].inlineData == r;
      forall j | 0 <= j < i + 1
        ensures parts[j].inlineData.None?
      {
        if j > 0 {
          assert parts[j] == parts[1..][j - 1];
        }
      }
    }
  }

  /** The PNG data URI the service builds around returned base64 data. */
  function ImageUri(data: string): string
  {
    ImageUriScheme + "," + data
  }

  /** The candidates of a reply, an absent list read as empty (`response.candidates || []`). */
  function CandidatesOf(response: Response): seq<Candidate>
  {
    match response.candidates
    case Some(c) => c
    case None => []
  }

  /** Whether the first candidate has a part carrying inline data. */
  predicate HasImage(response: Response)
  {
    var cs := CandidatesOf(response);
    |cs| > 0 && exists i :: 0 <= i < |cs[0].parts| && cs[0].parts[i].inlineData.Some?
  }

  /**
   The data URI extracted from a reply: present exactly when the first
   candidate has a part with inline data, and then the PNG wrapping of the
   first such part's data.
   */
  function DecodeResponse(response: Response): (r: Option<string>)
    ensures r.Some? <==> HasImage(response)
    ensures r.Some? ==>
      var parts := CandidatesOf(response)[0].parts;
      exists i :: 0 <= i < |parts| && parts[i].inlineData.Some?
                  && (forall j :: 0 <= j < i ==> parts[j].inlineData.None?)
                  && r.value == ImageUri(Interp(parts[i].inlineData.value.data))
  {
    var cs := CandidatesOf(response);
    if |cs| > 0 then
      match FirstInlineData(cs[0].parts)
      case Some(inline) => Some(ImageUri(Interp(inline.data)))
      case None => None
    else
      None
  }

  /** The one request `editImage` sends: the image part, then the instruction. */
  function BuildRequest(
    base64Data: Option<string>, mimeType: string, mode: EditMode,
    customPrompt: Option<string>, selection: Option<Selection>): Request
  {
    Request(
      ModelName,
      [ImagePart(base64Data, mimeType), TextPart(BuildPrompt(mode, customPrompt, selection))],
      AspectRatio)
  }

  /**
   What `editImage` makes of the service's answer: a thrown error is
   rethrown as it is, and a reply becomes the wrapped first image, or `null`
   when the first candidate has none. It depends on nothing else.
   */
  function Outcome(reply: Reply): (r: EditResult)
    ensures reply.Threw? ==> r == Failed(reply.error)
    ensures reply.Replied? && HasImage(reply.response) ==>
      r.Produced? && DecodeResponse(reply.response) == Some(r.uri)
    ensures reply.Replied? && !HasImage(reply.response) ==> r == NoImage
    ensures r.Produced? ==> StartsWith(r.uri, ImageUriScheme + ",")
  {
    match reply
    case Threw(e) => Failed(e)
    case Replied(response) =>
      match DecodeResponse(response)
      case Some(uri) =>
        assert uri[..|ImageUriScheme + ","|] == ImageUriScheme + ",";
        Produced(uri)
      case None => NoImage
  }

  /**
   `editImage`: one request to the fixed model, carrying the image and then
   the instruction, with a 1:1 aspect ratio, and the outcome of its reply.
   */
  function EditImage(
    base64Data: Option<string>, mimeType: string, mode: EditMode,
    customPrompt: Option<string>, selection: Option<Selection>, reply: Reply): (c: EditCall)
    ensures c.request.model == ModelName && c.request.aspectRatio == AspectRatio
    ensures c.request.parts == [ImagePart(base64Data, mimeType), TextPart(BuildPrompt(mode, customPrompt, selection))]
    ensures c.result == Outcome(reply)
  {
    EditCall(BuildRequest(base64Data, mimeType, mode, customPrompt, selection), Outcome(reply))
  }
}
