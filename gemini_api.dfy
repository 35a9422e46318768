/** The request handler of supabase/functions/gemini-api/index.ts, between its two
    I/O steps: checking the request body and assembling the `parts` sent to the image
    model, then reading the model's decoded reply into a data URL or an error, and
    turning every error into a 500 reply. Images travel as data URLs
    `data:<mediatype>;base64,<data>` (section 3 of RFC 2397). */
module GeminiApi {
  import opened Types
  import Text

  datatype Result<T> = Ok(value: T) | Err(message: string)

  /** `RequestBody`; an absent field is None. */
  datatype RequestBody = RequestBody(
    action: Option<string>,
    userImage: Option<string>,
    modelImage: Option<string>,
    garmentImage: Option<string>,
    tryOnImage: Option<string>,
    poseInstruction: Option<string>)

  /** One element of `parts`: an inline image (an undefined field is None, and is
      dropped when the request is serialised) or a text prompt. */
  datatype Part = InlineData(mime_type: Option<string>, data: Option<string>) | TextPart(text: string)

  /** The model prompts. Their wording is not modelled; the pose prompt is modelled as
      far as it matters here, the instruction embedded verbatim after a fixed lead. */
  const ModelPrompt: string := "[studio model prompt]"
  const TryOnPrompt: string := "[garment try-on prompt]"
  const PosePromptLead: string := "Take this fashion photograph and recreate it from "
  const PosePromptRest: string := ". [rest of the pose prompt]"

  function PosePrompt(instruction: string): (prompt: string)
    ensures |prompt| == |PosePromptLead| + |instruction| + |PosePromptRest|
    ensures prompt[..|PosePromptLead|] == PosePromptLead
    ensures prompt[|PosePromptLead|..|PosePromptLead| + |instruction|] == instruction
  {
    PosePromptLead + instruction + PosePromptRest
  }

  /** The media type and payload of a data URL, as the handler cuts them out:
      `url.split(';')[0].split(':')[1]` and `url.split(',')[1]`. */
  function ImagePart(url: string): (part: Part)
    ensures part.InlineData?
    ensures part.mime_type.Some? ==> ':' !in part.mime_type.value && ';' !in part.mime_type.value
    ensures part.data.Some? ==> ',' !in part.data.value
    ensures part.mime_type.Some? <==> ':' in Text.Split(url, ';')[0]
    ensures part.data.Some? <==> ',' in url
  {
    var head := Text.Split(url, ';')[0];
    var mimeType := Text.Piece(head, ':', 1);
    assert mimeType.Some? ==> ';' !in mimeType.value by {
      if mimeType.Some? {
        assert Text.Join(Text.Split(head, ':'), ':') == head;
        JoinedPieceIn(Text.Split(head, ':'), ':', 1, ';');
      }
    }
    SplitCount(head, ':');
    SplitCount(url, ',');
    InlineData(mimeType, Text.Piece(url, ',', 1))
  }

  /** A character in some piece is in the joined string. */
  lemma {:induction false} JoinedPieceIn(pieces: seq<string>, sep: char, k: nat, c: char)
    requires k < |pieces|
    requires c !in Text.Join(pieces, sep)
    ensures c !in pieces[k]
  {
    if |pieces| > 1 {
      if k > 0 {
        JoinedPieceIn(pieces[1..], sep, k - 1, c);
      }
    }
  }

  /** A string splits into more than one piece exactly when it holds the separator. */
  lemma {:induction false} SplitCount(s: string, sep: char)
    ensures |Text.Split(s, sep)| > 1 <==> sep in s
  {
    if |s| > 0 {
      SplitCount(s[1..], sep);
      assert sep in s <==> s[0] == sep || sep in s[1..];
    }
  }

  /** The request check and `parts` assembly of the action `switch`. */
  function BuildParts(body: RequestBody): (r: Result<seq<Part>>)
    ensures body.action == Some("generateModel") ==>
      if Truthy(body.userImage) then r == Ok([ImagePart(body.userImage.value), TextPart(ModelPrompt)])
      else r == Err("userImage is required")
    ensures body.action == Some("generateTryOn") ==>
      if Truthy(body.modelImage) && Truthy(body.garmentImage)
      then r == Ok([ImagePart(body.modelImage.value), ImagePart(body.garmentImage.value), TextPart(TryOnPrompt)])
      else r == Err("modelImage and garmentImage are required")
    ensures body.action == Some("generatePose") ==>
      if Truthy(body.tryOnImage) && Truthy(body.poseInstruction)
      then r == Ok([ImagePart(body.tryOnImage.value), TextPart(PosePrompt(body.poseInstruction.value))])
      else r == Err("tryOnImage and poseInstruction are required")
    ensures body.action !in {Some("generateModel"), Some("generateTryOn"), Some("generatePose")} ==>
      r == Err("Invalid action")
    ensures r.Ok? ==> (2 <= |r.value| <= 3 && r.value[|r.value| - 1].TextPart? &&
                       forall k :: 0 <= k < |r.value| - 1 ==> r.value[k].InlineData?)
  {
    match body.action
    case Some("generateModel") =>
      if !Truthy(body.userImage) then Err("userImage is required")
      else Ok([ImagePart(body.userImage.value), TextPart(ModelPrompt)])
    case Some("generateTryOn") =>
      if !Truthy(body.modelImage) || !Truthy(body.garmentImage) then Err("modelImage and garmentImage are required")
      else Ok([ImagePart(body.modelImage.value), ImagePart(body.garmentImage.value), TextPart(TryOnPrompt)])
    case Some("generatePose") =>
      if !Truthy(body.tryOnImage) || !Truthy(body.poseInstruction) then Err("tryOnImage and poseInstruction are required")
      else Ok([ImagePart(body.tryOnImage.value), TextPart(PosePrompt(body.poseInstruction.value))])
    case _ => Err("Invalid action")
  }

  /** The `inlineData` / `inline_data` object of a reply part. */
  datatype InlineImage = InlineImage(mimeType: Option<string>, mime_type: Option<string>, data: Option<string>)

  datatype ResponsePart = ResponsePart(inlineData: Option<InlineImage>, inline_data: Option<InlineImage>)

  /** A reply candidate; `parts` is None when `content` or `content.parts` is absent. */
  datatype Candidate = Candidate(parts: Option<seq<ResponsePart>>, finishReason: Option<string>)

  datatype PromptFeedback = PromptFeedback(blockReason: Option<string>, blockReasonMessage: Option<string>)

  /** The decoded reply of the image model. */
  datatype ModelResponse = ModelResponse(promptFeedback: Option<PromptFeedback>, candidates: Option<seq<Candidate>>)

  predicate HasImage(part: ResponsePart) {
    part.inlineData.Some? || part.inline_data.Some?
  }

  /** `parts.find(part => part.inlineData || part.inline_data)`. */
  function FirstImagePart(parts: seq<ResponsePart>): (r: Option<ResponsePart>)
    ensures r.Some? <==> exists k :: 0 <= k < |parts| && HasImage(parts[k])
    ensures r.Some? ==> HasImage(r.value)
    ensures r.Some? ==>
      exists k :: 0 <= k < |parts| && parts[k] == r.value && forall j :: 0 <= j < k ==> !HasImage(parts[j])
  {
    if |parts| == 0 then None
    else if HasImage(parts[0]) then Some(parts[0])
    else
      var r := FirstImagePart(parts[1..]);
      assert forall k :: 1 <= k < |parts| ==> parts[k] == parts[1..][k - 1];
      r
  }

  /** The image a candidate offers: its first image part, `inlineData` preferred. */
  function CandidateImage(c: Candidate): Option<InlineImage> {
    if c.parts.None? then None
    else match FirstImagePart(c.parts.value)
      case None => None
      case Some(part) => if part.inlineData.Some? then part.inlineData else part.inline_data
  }

  /** The image of the first candidate that offers one. */
  function FirstImage(candidates: seq<Candidate>): (r: Option<InlineImage>)
    ensures r.Some? <==> exists k :: 0 <= k < |candidates| && CandidateImage(candidates[k]).Some?
    ensures r.Some? ==>
      exists k :: 0 <= k < |candidates| && CandidateImage(candidates[k]) == r &&
        forall j :: 0 <= j < k ==> CandidateImage(candidates[j]).None?
  {
    if |candidates| == 0 then None
    else if CandidateImage(candidates[0]).Some? then CandidateImage(candidates[0])
    else
      var r := FirstImage(candidates[1..]);
      assert forall k :: 1 <= k < |candidates| ==> candidates[k] == candidates[1..][k - 1];
      r
  }

  /** The candidate loop: the image of the first candidate with an image part, if any. */
  method FindImage(candidates: seq<Candidate>) returns (found: Option<InlineImage>)
    ensures found == FirstImage(candidates)
  {
    var i := 0;
    while i < |candidates|
      invariant 0 <= i <= |candidates|
      invariant FirstImage(candidates) == FirstImage(candidates[i..])
    {
      var image := CandidateImage(candidates[i]);
      if image.Some? {
        return image;
      }
      assert candidates[i..][1..] == candidates[i + 1..];
      i := i + 1;
    }
    return None;
  }

  /** A value interpolated into a template literal; undefined renders as "undefined". */
  function Interpolated(s: Option<string>): string {
    if s.Some? then s.value else "undefined"
  }

  /** A data URL in the handler's output format. */
  function DataUrl(mediaType: string, data: string): string {
    "data:" + mediaType + ";base64," + data
  }

  /** The `imageUrl` returned for an inline image: `mimeType || mime_type`, then the data. */
  function ImageUrl(image: InlineImage): string {
    var mediaType := if Truthy(image.mimeType) then image.mimeType else image.mime_type;
    DataUrl(Interpolated(mediaType), Interpolated(image.data))
  }

  /** A truthy `promptFeedback.blockReason`. */
  predicate Blocked(response: ModelResponse) {
    response.promptFeedback.Some? && Truthy(response.promptFeedback.value.blockReason)
  }

  /** `candidates ?? []`. */
  function Candidates(response: ModelResponse): seq<Candidate> {
    if response.candidates.Some? then response.candidates.value else []
  }

  /** A truthy finish reason other than STOP on the first candidate. */
  predicate StoppedEarly(candidates: seq<Candidate>) {
    |candidates| > 0 && Truthy(candidates[0].finishReason) && candidates[0].finishReason != Some("STOP")
  }

  /** Reading the decoded reply: a block reason always fails; otherwise the first image
      found is returned; with none, a finish reason other than STOP on the first
      candidate names the stop, and anything else is "no image". */
  function Interpret(response: ModelResponse): (r: Result<string>)
    ensures Blocked(response) ==>
      var feedback := response.promptFeedback.value;
      r == Err("Request was blocked. Reason: " + feedback.blockReason.value + ". " +
               (if Truthy(feedback.blockReasonMessage) then feedback.blockReasonMessage.value else ""))
    ensures r.Ok? <==>
      !Blocked(response) && exists k :: 0 <= k < |Candidates(response)| && CandidateImage(Candidates(response)[k]).Some?
    ensures r.Ok? ==> r.value == ImageUrl(FirstImage(Candidates(response)).value)
    ensures !Blocked(response) && r.Err? ==>
      if StoppedEarly(Candidates(response))
      then r.message == "Image generation stopped unexpectedly. Reason: " + Candidates(response)[0].finishReason.value
      else r.message == "The AI model did not return an image"
  {
    if Blocked(response) then
      var feedback := response.promptFeedback.value;
      var detail := if Truthy(feedback.blockReasonMessage) then feedback.blockReasonMessage.value else "";
      Err("Request was blocked. Reason: " + feedback.blockReason.value + ". " + detail)
    else
      var candidates := Candidates(response);
      match FirstImage(candidates)
      case Some(image) => Ok(ImageUrl(image))
      case None =>
        var finishReason := if |candidates| > 0 then candidates[0].finishReason else None;
        if Truthy(finishReason) && finishReason.value != "STOP" then
          Err("Image generation stopped unexpectedly. Reason: " + finishReason.value)
        else
          Err("The AI model did not return an image")
  }

  /** What the model endpoint answered: a non-OK status with its body text, or a
      decoded JSON reply. */
  datatype GatewayReply = NotOk(errorText: string) | Decoded(response: ModelResponse)

  datatype ReplyBody = NoBody | ImageUrlBody(imageUrl: string) | ErrorBody(error: string)

  datatype Reply = Reply(status: nat, body: ReplyBody)

  const KeyMissingMessage: string := "Gemini API key not found in database"

  /** The whole handler. A preflight gets an empty 200. Otherwise the stored API key is
      looked up first, then the body is checked and the parts built, then the model's
      answer (which exists only for a request that was sent) is read. A thrown error
      becomes status 500 with `{error: message}`, an image status 200 with `{imageUrl}`. */
  function Handle(httpMethod: string, apiKey: Option<string>, body: RequestBody, gateway: GatewayReply): (reply: Reply)
    ensures httpMethod == "OPTIONS" ==> reply == Reply(200, NoBody)
    ensures reply.status == 500 <==> reply.body.ErrorBody?
    ensures reply.status == 200 <==> !reply.body.ErrorBody?
    ensures httpMethod != "OPTIONS" && !Truthy(apiKey) ==> reply == Reply(500, ErrorBody(KeyMissingMessage))
    ensures httpMethod != "OPTIONS" && Truthy(apiKey) && BuildParts(body).Err? ==>
      reply == Reply(500, ErrorBody(BuildParts(body).message))
    ensures httpMethod != "OPTIONS" && Truthy(apiKey) && BuildParts(body).Ok? && gateway.NotOk? ==>
      reply == Reply(500, ErrorBody("Gemini API error: " + gateway.errorText))
    ensures httpMethod != "OPTIONS" && Truthy(apiKey) && BuildParts(body).Ok? && gateway.Decoded? ==>
      (Interpret(gateway.response).Err? ==> reply == Reply(500, ErrorBody(Interpret(gateway.response).message)))
    ensures reply.body.ImageUrlBody? <==>
      httpMethod != "OPTIONS" && Truthy(apiKey) && BuildParts(body).Ok? && gateway.Decoded? &&
      Interpret(gateway.response).Ok?
    ensures reply.body.ImageUrlBody? ==> Interpret(gateway.response) == Ok(reply.body.imageUrl)
  {
    if httpMethod == "OPTIONS" then Reply(200, NoBody)
    else if !Truthy(apiKey) then Reply(500, ErrorBody(KeyMissingMessage))
    else match BuildParts(body)
      case Err(message) => Reply(500, ErrorBody(message))
      case Ok(_) =>
        match gateway
        case NotOk(text) => Reply(500, ErrorBody("Gemini API error: " + text))
        case Decoded(response) =>
          match Interpret(response)
          case Err(message) => Reply(500, ErrorBody(message))
          case Ok(url) => Reply(200, ImageUrlBody(url))
  }

  /** A body that fails the check is answered without the model: whatever the model
      would have said, the reply is the same. */
  lemma RejectedBodyIgnoresModel(httpMethod: string, apiKey: Option<string>, body: RequestBody,
                                 g1: GatewayReply, g2: GatewayReply)
    requires BuildParts(body).Err?
    ensures Handle(httpMethod, apiKey, body, g1) == Handle(httpMethod, apiKey, body, g2)
  {
  }

  /** A blocked prompt is never answered with an image, whatever the candidates hold. */
  lemma BlockedNeverYieldsImage(httpMethod: string, apiKey: Option<string>, body: RequestBody, response: ModelResponse)
    requires Blocked(response)
    ensures !Handle(httpMethod, apiKey, body, Decoded(response)).body.ImageUrlBody?
  {
  }

  /** Cutting a data URL the handler formatted gives back its media type and data, as
      long as the media type holds none of `:`, `;`, `,` and the data no `,`. */
  lemma DataUrlRoundTrip(mediaType: string, data: string)
    requires ':' !in mediaType && ';' !in mediaType && ',' !in mediaType && ',' !in data
    ensures ImagePart(DataUrl(mediaType, data)) == InlineData(Some(mediaType), Some(data))
  {
    var url := DataUrl(mediaType, data);
    var head := "data:" + mediaType;
    assert url == head + [';'] + ("base64," + data);
    Text.SplitAfterPiece(head, "base64," + data, ';');
    assert head == "data" + [':'] + mediaType;
    Text.SplitAfterPiece("data", mediaType, ':');
    Text.SplitSeparatorFree(mediaType, ':');
    assert url == (head + ";base64") + [','] + data;
    Text.SplitAfterPiece(head + ";base64", data, ',');
    Text.SplitSeparatorFree(data, ',');
  }

  /** An image returned by one call, passed back as the base image of the next one,
      reaches the model with the media type and data it came with. */
  lemma ReturnedImageFeedsBack(image: InlineImage)
    requires Truthy(image.mimeType) && image.data.Some?
    requires ':' !in image.mimeType.value && ';' !in image.mimeType.value && ',' !in image.mimeType.value
    requires ',' !in image.data.value
    ensures ImagePart(ImageUrl(image)) == InlineData(image.mimeType, image.data)
  {
    DataUrlRoundTrip(image.mimeType.value, image.data.value);
  }
}
