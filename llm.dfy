/** Outfit text generation (`utils/llm.py`): the chat request built from the
    user's inputs, and the parser that splits the model's reply into the
    recommendation text and the image-generation prompt by the sentinel
    markers `IMAGE_PROMPT_START` / `IMAGE_PROMPT_END`. The chat endpoint is
    a function parameter: it maps the request to a reply or an exception. */
module Llm {
  import opened Wrappers
  import opened PyText
  import Base64

  type Bytes = Base64.Bytes

  // ---------------------------------------------------------------- constants

  const StartMarker: string := "IMAGE_PROMPT_START"
  const EndMarker: string := "IMAGE_PROMPT_END"
  /** What the recommendation is cut at: the rule line before the start marker. */
  const Separator: string := "---\n" + StartMarker

  /** The system prompt's instructions up to the rule line that opens the
      image-prompt block. */
  const InstructionsHead: string :=
    "你是一位專業的時尚穿搭顧問 AI。根據使用者提供的資訊，生成詳細的穿搭建議。\n"
    + "\n"
    + "你的回覆必須包含以下格式：\n"
    + "\n"
    + "## 穿搭建議\n"
    + "\n"
    + "### 整體風格\n"
    + "[描述整體穿搭風格和氛圍]\n"
    + "\n"
    + "### 單品清單\n"
    + "- **上衣**: [具體描述]\n"
    + "- **下身**: [具體描述]\n"
    + "- **外套**: [如需要，具體描述]\n"
    + "- **鞋款**: [具體描述]\n"
    + "- **配件**: [具體描述]\n"
    + "\n"
    + "### 穿搭理由\n"
    + "[解釋為何這套穿搭適合使用者的需求，包含季節性、場合適合度、配色協調性]\n"

  /** The placeholder the system prompt puts between the two markers. */
  const ImagePromptInstruction: string :=
    "[用英文寫一段適合 DALL-E 生成穿搭示意圖的 prompt，描述一個時尚插畫風格的全身穿搭圖，不要包含真實人臉，使用 fashion illustration style]"

  /** The reply layout the system prompt asks for: the recommendation, a rule
      line, then the image prompt between the markers, each on its own line. */
  function TemplateReply(body: string, prompt: string): string {
    body + "\n---\n" + StartMarker + "\n" + prompt + "\n" + EndMarker + "\n"
  }

  /** The system message: the reply template itself, with the instructions
      as its body and the placeholder as its image prompt. */
  const SystemPrompt: string := TemplateReply(InstructionsHead, ImagePromptInstruction)

  const PhotoHint: string := "請參考上傳的照片來判斷適合的風格和色彩。"
  const StyleLabel: string := "\n\n使用者風格需求: "
  const SeasonLabel: string := "\n季節: "
  const OccasionLabel: string := "\n場合: "
  const ColorLabel: string := "\n色調偏好: "
  const ClosingLine: string := "\n\n請根據以上資訊生成穿搭建議。\n"

  const DataUrlPrefix: string := "data:image/jpeg;base64,"

  const FallbackHead: string := "Fashion illustration of a stylish outfit for "
  const FallbackTail: string :=
    " color palette, full body fashion sketch style, no face details, elegant and modern, white background"

  const RecommendationKey: string := "recommendation"
  const ImagePromptKey: string := "image_prompt"

  const Model: string := "gpt-4o"
  const MaxTokens: nat := 1500
  const Temperature: real := 0.7

  // ---------------------------------------------------------------- request

  /** One entry of the user message's content list. */
  datatype ContentPart =
    | ImagePart(url: string, detail: string)
    | TextPart(text: string)

  datatype Message =
    | SystemMessage(content: string)
    | UserMessage(parts: seq<ContentPart>)

  datatype ChatRequest = ChatRequest(model: string, messages: seq<Message>, maxTokens: nat, temperature: real)

  /** Python truthiness of `image_bytes`: `None` and `b""` both count as no photo. */
  predicate HasImage(imageBytes: Option<Bytes>) {
    imageBytes.Some? && |imageBytes.value| > 0
  }

  /** The inline data URL of the photo; the photo can be read back from it. */
  function DataUrl(photo: Bytes): (url: string)
    ensures |DataUrlPrefix| <= |url| && url[..|DataUrlPrefix|] == DataUrlPrefix
    ensures Base64.Decode(url[|DataUrlPrefix|..]) == Some(photo)
  {
    var url := DataUrlPrefix + Base64.Encode(photo);
    assert url[|DataUrlPrefix|..] == Base64.Encode(photo);
    Base64.DecodeEncode(photo);
    url
  }

  function ImageContext(hasImage: bool): string {
    if hasImage then PhotoHint else ""
  }

  /** The user message text: the photo hint line (or an empty line), then
      one labelled line per input, then the closing request. */
  function UserText(imageContext: string, userPrompt: string, season: string, occasion: string, colorTone: string)
    : (t: string)
    ensures |t| > |imageContext| + |userPrompt| + |season| + |occasion| + |colorTone|
    ensures t[0] == '\n'
  {
    "\n" + imageContext + StyleLabel + userPrompt + SeasonLabel + season
    + OccasionLabel + occasion + ColorLabel + colorTone + ClosingLine
  }

  /** The user message content: an image part first when there is a photo,
      and always the text part last. */
  function UserContent(userPrompt: string, season: string, occasion: string, colorTone: string,
                       imageBytes: Option<Bytes>): (c: seq<ContentPart>)
    ensures |c| == if HasImage(imageBytes) then 2 else 1
    ensures c[|c| - 1] == TextPart(UserText(ImageContext(HasImage(imageBytes)), userPrompt, season, occasion, colorTone))
    ensures HasImage(imageBytes) ==> c[0] == ImagePart(DataUrl(imageBytes.value), "low")
  {
    var text := TextPart(UserText(ImageContext(HasImage(imageBytes)), userPrompt, season, occasion, colorTone));
    if HasImage(imageBytes) then [ImagePart(DataUrl(imageBytes.value), "low"), text] else [text]
  }

  /** Appends the content parts to an initially empty list, as the source does. */
  method BuildUserContent(userPrompt: string, season: string, occasion: string, colorTone: string,
                          imageBytes: Option<Bytes>) returns (content: seq<ContentPart>)
    ensures content == UserContent(userPrompt, season, occasion, colorTone, imageBytes)
  {
    content := [];
    var imageContext: string;
    if imageBytes.Some? && |imageBytes.value| > 0 {
      var base64Image := Base64.Encode(imageBytes.value);
      content := content + [ImagePart(DataUrlPrefix + base64Image, "low")];
      imageContext := PhotoHint;
    } else {
      imageContext := "";
    }
    var userText := UserText(imageContext, userPrompt, season, occasion, colorTone);
    content := content + [TextPart(userText)];
  }

  /** The request `generate_outfit_recommendation` sends: the fixed model
      and sampling settings, the system prompt first and the user content
      second. */
  function Request(userPrompt: string, season: string, occasion: string, colorTone: string,
                   imageBytes: Option<Bytes>): (r: ChatRequest)
    ensures r.model == Model && r.maxTokens == MaxTokens && r.temperature == Temperature
    ensures |r.messages| == 2 && r.messages[0] == SystemMessage(SystemPrompt)
    ensures r.messages[1] == UserMessage(UserContent(userPrompt, season, occasion, colorTone, imageBytes))
  {
    ChatRequest(Model,
                [SystemMessage(SystemPrompt), UserMessage(UserContent(userPrompt, season, occasion, colorTone, imageBytes))],
                MaxTokens, Temperature)
  }

  /** The photo hint stands at the head of the user text (after its opening
      newline). */
  predicate HintOpens(text: string) {
    |text| >= 1 + |PhotoHint| && text[1..1 + |PhotoHint|] == PhotoHint
  }

  /** The user text opens with the photo hint exactly when a photo was
      attached. */
  lemma {:induction false} PhotoHintIffImage(imageBytes: Option<Bytes>, userPrompt: string, season: string,
                                             occasion: string, colorTone: string)
    ensures HintOpens(UserText(ImageContext(HasImage(imageBytes)), userPrompt, season, occasion, colorTone))
            <==> HasImage(imageBytes)
  {
    var ctx := ImageContext(HasImage(imageBytes));
    var head := "\n" + ctx + StyleLabel;
    UserTextHead(ctx, userPrompt, season, occasion, colorTone);
    if HasImage(imageBytes) {
      assert head[1..1 + |PhotoHint|] == PhotoHint;
    } else {
      assert head[1] == StyleLabel[0] == '\n';
      assert PhotoHint[0] != '\n';
    }
  }

  /** The user text starts with the opening newline, the image context and
      the first label. */
  lemma UserTextHead(imageContext: string, userPrompt: string, season: string, occasion: string, colorTone: string)
    ensures var head := "\n" + imageContext + StyleLabel;
      UserText(imageContext, userPrompt, season, occasion, colorTone)[..|head|] == head
  {
    var head := "\n" + imageContext + StyleLabel;
    var n := |head|;
    PrefixKept(head, userPrompt, n);
    var t1 := head + userPrompt;
    PrefixKept(t1, SeasonLabel, n);
    PrefixKept(t1 + SeasonLabel, season, n);
    var t2 := t1 + SeasonLabel + season;
    PrefixKept(t2, OccasionLabel, n);
    PrefixKept(t2 + OccasionLabel, occasion, n);
    var t3 := t2 + OccasionLabel + occasion;
    PrefixKept(t3, ColorLabel, n);
    PrefixKept(t3 + ColorLabel, colorTone, n);
    PrefixKept(t3 + ColorLabel + colorTone, ClosingLine, n);
    assert head[..n] == head;
  }

  /** Every input appears in the user text right after its own label, at
      the position the labels and inputs before it add up to. */
  lemma UserTextMentionsInputs(imageContext: string, userPrompt: string, season: string,
                               occasion: string, colorTone: string)
    ensures var text := UserText(imageContext, userPrompt, season, occasion, colorTone);
      var styleAt := 1 + |imageContext|;
      var seasonAt := styleAt + |StyleLabel| + |userPrompt|;
      var occasionAt := seasonAt + |SeasonLabel| + |season|;
      var colorAt := occasionAt + |OccasionLabel| + |occasion|;
      && OccursAt(text, StyleLabel + userPrompt, styleAt)
      && OccursAt(text, SeasonLabel + season, seasonAt)
      && OccursAt(text, OccasionLabel + occasion, occasionAt)
      && OccursAt(text, ColorLabel + colorTone, colorAt)
  {
    LabelledFieldsAt("\n" + imageContext, StyleLabel, userPrompt, SeasonLabel, season, OccasionLabel, occasion,
                     ColorLabel, colorTone, ClosingLine);
  }

  /** Where each label-and-value pair of `h + l1 + v1 + ... + l4 + v4 + t`
      starts. */
  lemma LabelledFieldsAt(h: string, l1: string, v1: string, l2: string, v2: string, l3: string, v3: string,
                         l4: string, v4: string, t: string)
    ensures var s := h + l1 + v1 + l2 + v2 + l3 + v3 + l4 + v4 + t;
      && OccursAt(s, l1 + v1, |h|)
      && OccursAt(s, l2 + v2, |h| + |l1| + |v1|)
      && OccursAt(s, l3 + v3, |h| + |l1| + |v1| + |l2| + |v2|)
      && OccursAt(s, l4 + v4, |h| + |l1| + |v1| + |l2| + |v2| + |l3| + |v3|)
  {
    var p1 := h + l1 + v1;
    var p2 := p1 + l2 + v2;
    var p3 := p2 + l3 + v3;
    var p4 := p3 + l4 + v4;
    OccursLastPair(h, l1, v1);
    OccursLastPair(p1, l2, v2);
    OccursLastPair(p2, l3, v3);
    OccursLastPair(p3, l4, v4);
    OccursBeforePair(p1, l1 + v1, |h|, l2, v2);
    OccursBeforePair(p2, l1 + v1, |h|, l3, v3);
    OccursBeforePair(p2, l2 + v2, |p1|, l3, v3);
    OccursBeforePair(p3, l1 + v1, |h|, l4, v4);
    OccursBeforePair(p3, l2 + v2, |p1|, l4, v4);
    OccursBeforePair(p3, l3 + v3, |p2|, l4, v4);
    OccursInPrefix(p4, l1 + v1, |h|, t);
    OccursInPrefix(p4, l2 + v2, |p1|, t);
    OccursInPrefix(p4, l3 + v3, |p2|, t);
    OccursInPrefix(p4, l4 + v4, |p3|, t);
  }

  lemma OccursLastPair(p: string, l: string, v: string)
    ensures OccursAt(p + l + v, l + v, |p|)
  {
    assert p + l + v == p + (l + v);
    OccursLast(p, l + v);
  }

  // ---------------------------------------------------------------- parser

  datatype Recommendation = Recommendation(recommendation: string, imagePrompt: string)

  /** Both markers are in the reply (`START in r and END in r`). */
  predicate HasMarkers(reply: string) {
    Contains(reply, StartMarker) && Contains(reply, EndMarker)
  }

  /** The image prompt used when the reply has no marker block: it names the
      season, the occasion and the colour tone, in that order, and is never
      empty. */
  function FallbackPrompt(season: string, occasion: string, colorTone: string): (r: string)
    ensures |r| > |FallbackHead|
  {
    FallbackHead + season + " " + occasion + ", " + colorTone + FallbackTail
  }

  /** The fallback prompt names the season, the occasion and the colour tone,
      in that order, each at its own place after the fixed opening. */
  lemma FallbackNamesInputs(season: string, occasion: string, colorTone: string)
    ensures var r := FallbackPrompt(season, occasion, colorTone);
      && OccursAt(r, FallbackHead, 0)
      && OccursAt(r, season, |FallbackHead|)
      && OccursAt(r, occasion, |FallbackHead| + |season| + 1)
      && OccursAt(r, colorTone, |FallbackHead| + |season| + 1 + |occasion| + 2)
  {
    PiecesAt(FallbackHead, season, " ", occasion, ", ", colorTone, FallbackTail);
  }

  /** Where the head and the pieces `x`, `y`, `z` of
      `h + x + s1 + y + s2 + z + t` start. */
  lemma PiecesAt(h: string, x: string, s1: string, y: string, s2: string, z: string, t: string)
    ensures var s := h + x + s1 + y + s2 + z + t;
      && OccursAt(s, h, 0)
      && OccursAt(s, x, |h|)
      && OccursAt(s, y, |h| + |x| + |s1|)
      && OccursAt(s, z, |h| + |x| + |s1| + |y| + |s2|)
  {
    var p1 := h + x + s1;
    var p2 := p1 + y + s2;
    var p3 := p2 + z;
    OccursLast([], h);
    assert [] + h == h;
    OccursBeforePair(h, h, 0, x, s1);
    OccursBeforePair(p1, h, 0, y, s2);
    OccursBeforePair(p2, h, 0, z, t);
    OccursLast(h, x);
    OccursInPrefix(h + x, x, |h|, s1);
    OccursBeforePair(p1, x, |h|, y, s2);
    OccursBeforePair(p2, x, |h|, z, t);
    OccursLast(p1, y);
    OccursInPrefix(p1 + y, y, |p1|, s2);
    OccursBeforePair(p2, y, |p1|, z, t);
    OccursLast(p2, z);
    OccursInPrefix(p3, z, |p2|, t);
  }

  /** The two texts cut out of a reply once the start marker was found at
      `a`, the end marker at `e` and the `---` line at `k` (-1 when absent). */
  function CutAt(reply: string, a: int, e: int, k: int): (p: Recommendation)
    ensures IsTrimmed(p.recommendation) && IsTrimmed(p.imagePrompt)
  {
    Recommendation(Strip(Slice(reply, 0, k)), Strip(Slice(reply, a + |StartMarker|, e)))
  }

  /** Cutting before the `---` line, or before the last character when there
      is none, leaves less than the whole reply. */
  lemma CutIsShorter(reply: string, a: int, e: int, k: int)
    requires OccursAt(reply, StartMarker, a) && (k == -1 || OccursAt(reply, Separator, k))
    ensures |CutAt(reply, a, e, k).recommendation| < |reply|
  {
  }

  /** The parsing half of `generate_outfit_recommendation`. With both markers,
      both texts are trimmed and the recommendation is strictly shorter than
      the reply; without them the reply is kept verbatim and the image prompt
      is the fallback. */
  function ParseReply(reply: string, season: string, occasion: string, colorTone: string): (p: Recommendation)
    ensures HasMarkers(reply) ==>
      IsTrimmed(p.recommendation) && IsTrimmed(p.imagePrompt) && |p.recommendation| < |reply|
    ensures !HasMarkers(reply) ==>
      p.recommendation == reply && p.imagePrompt == FallbackPrompt(season, occasion, colorTone)
  {
    if Contains(reply, StartMarker) && Contains(reply, EndMarker) then
      var a, e, k := Find(reply, StartMarker), Find(reply, EndMarker), Find(reply, Separator);
      FindSpec(reply, StartMarker);
      FindSpec(reply, Separator);
      CutIsShorter(reply, a, e, k);
      CutAt(reply, a, e, k)
    else
      Recommendation(reply, FallbackPrompt(season, occasion, colorTone))
  }

  /** The result dictionary; it always has exactly the two keys. */
  function ToDict(p: Recommendation): (d: map<string, string>)
    ensures d.Keys == {RecommendationKey, ImagePromptKey}
    ensures d[RecommendationKey] == p.recommendation && d[ImagePromptKey] == p.imagePrompt
  {
    map[RecommendationKey := p.recommendation, ImagePromptKey := p.imagePrompt]
  }

  /** The parse of a reply with both markers, from the three `find` results:
      whatever the cut at those positions gives. */
  lemma ParseMarked(reply: string, a: int, e: int, k: int, r: Recommendation, season: string, occasion: string,
                    colorTone: string)
    requires 0 <= a && 0 <= e
    requires Find(reply, StartMarker) == a && Find(reply, EndMarker) == e && Find(reply, Separator) == k
    requires CutAt(reply, a, e, k) == r
    ensures ParseReply(reply, season, occasion, colorTone) == r
  {
  }

  /** With both markers present, the image prompt is the trimmed text between
      the end of the first start marker and the first end marker. */
  lemma PromptBetweenFirstMarkers(reply: string, i: int, j: int, season: string, occasion: string, colorTone: string)
    requires FirstAt(reply, StartMarker, i) && FirstAt(reply, EndMarker, j)
    requires i + |StartMarker| <= j
    ensures ParseReply(reply, season, occasion, colorTone).imagePrompt == Strip(reply[i + |StartMarker|..j])
  {
    FindIsFirst(reply, StartMarker, i);
    FindIsFirst(reply, EndMarker, j);
    ParseMarked(reply, i, j, Find(reply, Separator), CutAt(reply, i, j, Find(reply, Separator)), season, occasion,
                colorTone);
  }

  /** When the first end marker comes before the first start marker is over,
      the slice between them is empty and so is the image prompt. */
  lemma ReversedMarkersGiveEmptyPrompt(reply: string, i: int, j: int, season: string, occasion: string,
                                       colorTone: string)
    requires FirstAt(reply, StartMarker, i) && FirstAt(reply, EndMarker, j)
    requires j < i + |StartMarker|
    ensures ParseReply(reply, season, occasion, colorTone).imagePrompt == ""
  {
    FindIsFirst(reply, StartMarker, i);
    FindIsFirst(reply, EndMarker, j);
    ParseMarked(reply, i, j, Find(reply, Separator), CutAt(reply, i, j, Find(reply, Separator)), season, occasion,
                colorTone);
    StripTrimmed([]);
  }

  /** With both markers present, the recommendation is the trimmed text before
      the first `---\nIMAGE_PROMPT_START`. */
  lemma RecommendationBeforeSeparator(reply: string, k: int, season: string, occasion: string, colorTone: string)
    requires HasMarkers(reply) && FirstAt(reply, Separator, k)
    ensures ParseReply(reply, season, occasion, colorTone).recommendation == Strip(reply[..k])
  {
    FindIsFirst(reply, Separator, k);
    var a, e := Find(reply, StartMarker), Find(reply, EndMarker);
    ParseMarked(reply, a, e, k, CutAt(reply, a, e, k), season, occasion, colorTone);
  }

  /** With both markers present but no `---` line before the start marker,
      `find` gives -1 and the slice `[:-1]` drops only the last character. */
  lemma RecommendationWithoutSeparator(reply: string, season: string, occasion: string, colorTone: string)
    requires HasMarkers(reply) && !Occurs(reply, Separator)
    ensures ParseReply(reply, season, occasion, colorTone).recommendation == Strip(reply[..|reply| - 1])
  {
    FindSpec(reply, StartMarker);
    FindSpec(reply, Separator);
    var a, e := Find(reply, StartMarker), Find(reply, EndMarker);
    ParseMarked(reply, a, e, -1, CutAt(reply, a, e, -1), season, occasion, colorTone);
  }

  /** In a reply laid out as the system prompt asks, the start marker is first
      found right after the rule line. */
  lemma TemplateStart(body: string, prompt: string)
    requires !Occurs(body, StartMarker)
    ensures Find(TemplateReply(body, prompt), StartMarker) == |body| + 5
  {
    var reply := TemplateReply(body, prompt);
    TooShort("---", StartMarker);
    NotAcrossJoin(body, '\n', "---", StartMarker);
    var beforeStart := body + ['\n'] + "---";
    var afterStart := "\n" + prompt + "\n" + EndMarker + "\n";
    assert reply == beforeStart + ['\n'] + StartMarker + afterStart;
    FirstAfterJoin(beforeStart, '\n', StartMarker, afterStart);
    FindIsFirst(reply, StartMarker, |body| + 5);
  }

  /** ... and the end marker right after the image prompt's line. */
  lemma TemplateEnd(body: string, prompt: string)
    requires !Occurs(body, EndMarker) && !Occurs(prompt, EndMarker)
    ensures Find(TemplateReply(body, prompt), EndMarker) == |body| + |prompt| + 25
  {
    var reply := TemplateReply(body, prompt);
    AbsentByChar(StartMarker, EndMarker, 14);
    TooShort("---", EndMarker);
    var beforeStart := body + ['\n'] + "---";
    NotAcrossJoin(body, '\n', "---", EndMarker);
    NotAcrossJoin(beforeStart, '\n', StartMarker, EndMarker);
    var beforeEnd := beforeStart + ['\n'] + StartMarker + ['\n'] + prompt;
    NotAcrossJoin(beforeStart + ['\n'] + StartMarker, '\n', prompt, EndMarker);
    assert reply == beforeEnd + ['\n'] + EndMarker + "\n";
    FirstAfterJoin(beforeEnd, '\n', EndMarker, "\n");
    FindIsFirst(reply, EndMarker, |beforeEnd| + 1);
  }

  /** ... and the rule line itself one character after the body, since an
      earlier one would hold an earlier start marker. */
  lemma TemplateSeparator(body: string, prompt: string)
    requires !Occurs(body, StartMarker)
    ensures Find(TemplateReply(body, prompt), Separator) == |body| + 1
  {
    var reply := TemplateReply(body, prompt);
    TemplateStart(body, prompt);
    var afterStart := "\n" + prompt + "\n" + EndMarker + "\n";
    assert reply == body + ['\n'] + Separator + afterStart;
    OccursInMiddle(body + ['\n'], Separator, afterStart);
    FindSpec(reply, StartMarker);
    forall j | 0 <= j < |body| + 1 ensures !OccursAt(reply, Separator, j) {
      OccursAtSuffix(reply, "---\n", StartMarker, j);
    }
    FindIsFirst(reply, Separator, |body| + 1);
  }

  /** A reply laid out as the system prompt asks parses into its trimmed body
      and its trimmed image prompt, whatever the body and prompt hold, as long
      as the body contains neither marker and the prompt no end marker. */
  lemma {:induction false} TemplateReplyParses(body: string, prompt: string, season: string, occasion: string,
                                               colorTone: string)
    requires !Occurs(body, StartMarker) && !Occurs(body, EndMarker) && !Occurs(prompt, EndMarker)
    ensures ParseReply(TemplateReply(body, prompt), season, occasion, colorTone)
            == Recommendation(Strip(body), Strip(prompt))
  {
    hide *;
    TemplateFinds(body, prompt);
    ParseAtLayout(TemplateReply(body, prompt), |body|, |prompt|, Recommendation(Strip(body), Strip(prompt)),
                  season, occasion, colorTone);
  }

  /** The parse of a reply whose markers and rule line are found where the
      layout puts them around a body of length `b` and a prompt of length `p`. */
  lemma ParseAtLayout(reply: string, b: nat, p: nat, r: Recommendation, season: string, occasion: string,
                      colorTone: string)
    requires Find(reply, StartMarker) == b + 5 && Find(reply, EndMarker) == b + p + 25
    requires Find(reply, Separator) == b + 1
    requires CutAt(reply, b + 5, b + p + 25, b + 1) == r
    ensures ParseReply(reply, season, occasion, colorTone) == r
  {
    ParseMarked(reply, Find(reply, StartMarker), Find(reply, EndMarker), Find(reply, Separator), r, season, occasion,
                colorTone);
  }

  /** Where `find` locates the markers and the rule line in a reply laid out
      as the system prompt asks, and what cutting there gives. */
  lemma TemplateFinds(body: string, prompt: string)
    requires !Occurs(body, StartMarker) && !Occurs(body, EndMarker) && !Occurs(prompt, EndMarker)
    ensures Find(TemplateReply(body, prompt), StartMarker) == |body| + 5
    ensures Find(TemplateReply(body, prompt), EndMarker) == |body| + |prompt| + 25
    ensures Find(TemplateReply(body, prompt), Separator) == |body| + 1
    ensures CutAt(TemplateReply(body, prompt), |body| + 5, |body| + |prompt| + 25, |body| + 1)
            == Recommendation(Strip(body), Strip(prompt))
  {
    CutTemplate(body, prompt);
    TemplateStart(body, prompt);
    TemplateEnd(body, prompt);
    TemplateSeparator(body, prompt);
  }

  /** Cutting a text just after the line break that ends `body` and
      stripping gives the stripped body. */
  lemma CutBody(body: string, rest: string)
    ensures Strip(Slice(body + "\n" + rest, 0, |body| + 1)) == Strip(body)
  {
    assert (body + "\n" + rest)[..|body| + 1] == [] + body + "\n";
    StripPadded([], body, "\n");
  }

  /** Cutting out a whole line, with both of its line breaks, and stripping
      gives the stripped line. */
  lemma CutLine(front: string, line: string, tail: string)
    ensures Strip(Slice(front + "\n" + line + "\n" + tail, |front|, |front| + |line| + 2)) == Strip(line)
  {
    assert (front + "\n" + line + "\n" + tail)[|front|..|front| + |line| + 2] == "\n" + line + "\n";
    StripPadded("\n", line, "\n");
  }

  /** Cutting a reply laid out as the system prompt asks at its markers gives
      its trimmed body and its trimmed image prompt. */
  lemma CutTemplate(body: string, prompt: string)
    ensures CutAt(TemplateReply(body, prompt), |body| + 5, |body| + |prompt| + 25, |body| + 1)
            == Recommendation(Strip(body), Strip(prompt))
  {
    CutTemplateBody(body, prompt);
    CutTemplatePrompt(body, prompt);
  }

  lemma CutTemplateBody(body: string, prompt: string)
    ensures Strip(Slice(TemplateReply(body, prompt), 0, |body| + 1)) == Strip(body)
  {
    var rest := Separator + "\n" + prompt + "\n" + EndMarker + "\n";
    assert TemplateReply(body, prompt) == body + "\n" + rest;
    CutBody(body, rest);
  }

  lemma CutTemplatePrompt(body: string, prompt: string)
    ensures Strip(Slice(TemplateReply(body, prompt), |body| + 5 + |StartMarker|, |body| + |prompt| + 25)) == Strip(prompt)
  {
    var front, tail := body + "\n" + Separator, EndMarker + "\n";
    assert TemplateReply(body, prompt) == front + "\n" + prompt + "\n" + tail;
    CutLine(front, prompt, tail);
  }

  /** Parsing undoes the layout: a trimmed body and a trimmed image prompt
      laid out as the system prompt asks come back unchanged. */
  lemma TrimmedTemplateParses(body: string, prompt: string, season: string, occasion: string, colorTone: string)
    requires !Occurs(body, StartMarker) && !Occurs(body, EndMarker) && !Occurs(prompt, EndMarker)
    requires IsTrimmed(body) && IsTrimmed(prompt)
    ensures ParseReply(TemplateReply(body, prompt), season, occasion, colorTone) == Recommendation(body, prompt)
  {
    TemplateReplyParses(body, prompt, season, occasion, colorTone);
    StripTrimmed(body);
    StripTrimmed(prompt);
  }

  /** The reply `X`, a rule line, and `P` between the markers gives the
      recommendation `X` and the image prompt `P`. */
  lemma ShortReplyExample(season: string, occasion: string, colorTone: string)
    ensures ParseReply(TemplateReply("X", "P"), season, occasion, colorTone) == Recommendation("X", "P")
  {
    TooShort("X", StartMarker);
    TooShort("X", EndMarker);
    TooShort("P", EndMarker);
    TrimmedTemplateParses("X", "P", season, occasion, colorTone);
  }

  /** The end-to-end example of a spring campus outfit in a cool tone: the
      text before the rule line is the recommendation and the line between
      the markers is the image prompt. (The prompt literal is written in three
      pieces so that its characters can be checked piece by piece.) */
  lemma CampusReplyExample()
    ensures ParseReply(TemplateReply("...建議內容...", "Fashion illustration, " + "pastel cool-tone " + "campus outfit"),
                       "春季", "校園", "冷色系")
            == Recommendation("...建議內容...", "Fashion illustration, " + "pastel cool-tone " + "campus outfit")
  {
    hide *;
    CampusBody();
    CampusPrompt();
    TrimmedTemplateParses("...建議內容...", "Fashion illustration, " + "pastel cool-tone " + "campus outfit",
                          "春季", "校園", "冷色系");
  }

  lemma CampusBody()
    ensures var body := "...建議內容...";
      !Occurs(body, StartMarker) && !Occurs(body, EndMarker) && IsTrimmed(body)
  {
    var body := "...建議內容...";
    assert '_' !in body;
    AbsentByChar(body, StartMarker, 5);
    AbsentByChar(body, EndMarker, 5);
  }

  lemma CampusPrompt()
    ensures var prompt := "Fashion illustration, " + "pastel cool-tone " + "campus outfit";
      !Occurs(prompt, EndMarker) && IsTrimmed(prompt)
  {
    var prompt := "Fashion illustration, " + "pastel cool-tone " + "campus outfit";
    assert '_' !in "Fashion illustration, ";
    assert '_' !in "pastel cool-tone ";
    assert '_' !in "campus outfit";
    CharNotInJoin("Fashion illustration, ", "pastel cool-tone ", '_');
    CharNotInJoin("Fashion illustration, " + "pastel cool-tone ", "campus outfit", '_');
    AbsentByChar(prompt, EndMarker, 5);
  }

  // ---------------------------------------------------------------- the call

  /** `generate_outfit_recommendation`: builds the request, sends it, and
      parses the reply. An exception from the chat call propagates as
      `Raised`, distinct from a reply without markers, which still succeeds. */
  method GenerateOutfitRecommendation(chat: ChatRequest -> Outcome<string>, userPrompt: string, season: string,
                                      occasion: string, colorTone: string, imageBytes: Option<Bytes>)
    returns (result: Outcome<map<string, string>>, sent: ChatRequest)
    ensures sent == Request(userPrompt, season, occasion, colorTone, imageBytes)
    ensures chat(sent).Raised? ==> result == Raised(chat(sent).message)
    ensures chat(sent).Returned? ==>
      result == Returned(ToDict(ParseReply(chat(sent).value, season, occasion, colorTone)))
  {
    var content := BuildUserContent(userPrompt, season, occasion, colorTone, imageBytes);
    sent := ChatRequest(Model, [SystemMessage(SystemPrompt), UserMessage(content)], MaxTokens, Temperature);
    var response := chat(sent);
    match response {
      case Raised(e) =>
        result := Raised(e);
      case Returned(fullResponse) =>
        var parsed := ParseReply(fullResponse, season, occasion, colorTone);
        result := Returned(ToDict(parsed));
    }
  }
}
