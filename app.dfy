/** The session-state machine of `main()` in `app.py`. Every interaction
    reruns the page script from the top: the three rows of selection buttons
    update their session fields, the generate button runs the validation
    chain and then the text-then-image pipeline, the results area is shown
    or not from what the session holds, and the regenerate button clears the
    results. The chat endpoint, the image endpoint and the image download are
    function parameters; Streamlit's rendering is reduced to the notices the
    page shows and a `View` of the results area. */
module App {
  import opened Wrappers
  import Llm

  type Bytes = Llm.Bytes

  // ---------------------------------------------------------------- constants

  /** What each row of four buttons stores, column by column. */
  const SeasonValues: seq<string> := ["春季", "夏季", "秋季", "冬季"]
  const OccasionValues: seq<string> := ["約會", "工作", "校園", "旅行"]
  const ColorValues: seq<string> := ["冷色系", "暖色系", "大地色系", "黑白灰"]

  const MissingStyleMessage: string := "請輸入風格需求"
  const MissingSeasonMessage: string := "請選擇季節"
  const MissingOccasionMessage: string := "請選擇場合"
  const MissingColorMessage: string := "請選擇色調偏好"
  const TextErrorHead: string := "生成建議時發生錯誤: "
  const TextDoneMessage: string := "穿搭建議生成完成!"
  const ImageDoneMessage: string := "示意圖生成完成!"
  const ImageMissingMessage: string := "示意圖生成失敗，但文字建議已完成"
  const ImageErrorHead: string := "生成示意圖時發生錯誤: "

  // ---------------------------------------------------------------- session

  /** Python truthiness of a session value that is a string or `None`. */
  predicate Truthy(s: Option<string>) {
    s.Some? && s.value != ""
  }

  /** The session fields `main()` reads and writes; `None` stands both for
      `None` and for a key not yet in `st.session_state`. */
  datatype SessionState = SessionState(
    selectedSeason: Option<string>,
    selectedOccasion: Option<string>,
    selectedColor: Option<string>,
    recommendation: Option<string>,
    imagePrompt: Option<string>,
    generatedImageUrl: Option<string>)

  /** What a session can hold between runs: each selection is one of its
      row's values, a recommendation always comes with the image prompt
      generated beside it, and a stored image URL is never empty. */
  predicate Consistent(s: SessionState) {
    && (s.selectedSeason.Some? ==> s.selectedSeason.value in SeasonValues)
    && (s.selectedOccasion.Some? ==> s.selectedOccasion.value in OccasionValues)
    && (s.selectedColor.Some? ==> s.selectedColor.value in ColorValues)
    && (s.recommendation.Some? ==> s.imagePrompt.Some?)
    && (s.generatedImageUrl.Some? ==> Truthy(s.generatedImageUrl))
  }

  // ---------------------------------------------------------------- buttons

  /** What a row of buttons leaves in its session field: the value under the
      last pressed button, or the field's old value when none was pressed.
      A row can only store one of its own values. */
  function Chosen(values: seq<string>, pressed: seq<bool>, current: Option<string>): (r: Option<string>)
    requires |pressed| <= |values|
    ensures r == current || (r.Some? && r.value in values)
    decreases |pressed|
  {
    if |pressed| == 0 then current
    else if pressed[|pressed| - 1] then Some(values[|pressed| - 1])
    else Chosen(values, pressed[..|pressed| - 1], current)
  }

  /** The last pressed button decides the value. */
  lemma {:induction false} ChosenIsLastPressed(values: seq<string>, pressed: seq<bool>, current: Option<string>, j: int)
    requires |pressed| <= |values| && 0 <= j < |pressed| && pressed[j]
    requires forall k :: j < k < |pressed| ==> !pressed[k]
    ensures Chosen(values, pressed, current) == Some(values[j])
    decreases |pressed|
  {
    if j < |pressed| - 1 {
      var front := pressed[..|pressed| - 1];
      assert front[j] && forall k :: j < k < |front| ==> !front[k];
      ChosenIsLastPressed(values, front, current, j);
    }
  }

  /** With no button pressed the field keeps its value. */
  lemma {:induction false} ChosenUnpressed(values: seq<string>, pressed: seq<bool>, current: Option<string>)
    requires |pressed| <= |values|
    requires forall k :: 0 <= k < |pressed| ==> !pressed[k]
    ensures Chosen(values, pressed, current) == current
    decreases |pressed|
  {
    if |pressed| > 0 {
      ChosenUnpressed(values, pressed[..|pressed| - 1], current);
    }
  }

  /** The loop over one row of button columns: each pressed button assigns
      its value to the field, so a later one overwrites an earlier one. */
  method PressedValue(values: seq<string>, pressed: seq<bool>, current: Option<string>) returns (selected: Option<string>)
    requires |pressed| == |values|
    ensures selected == Chosen(values, pressed, current)
  {
    selected := current;
    for i := 0 to |pressed|
      invariant selected == Chosen(values, pressed[..i], current)
    {
      if pressed[i] {
        selected := Some(values[i]);
      }
      assert pressed[..i + 1][..i] == pressed[..i];
    }
    assert pressed[..|pressed|] == pressed;
  }

  // ---------------------------------------------------------------- validation

  datatype Field = StyleText | Season | Occasion | ColorTone

  /** The position of a field in the order the chain checks them. */
  function Rank(f: Field): nat {
    match f
    case StyleText => 0
    case Season => 1
    case Occasion => 2
    case ColorTone => 3
  }

  function MissingMessage(f: Field): string {
    match f
    case StyleText => MissingStyleMessage
    case Season => MissingSeasonMessage
    case Occasion => MissingOccasionMessage
    case ColorTone => MissingColorMessage
  }

  /** Whether an input counts as given: the style text is a string, the
      selections are strings or `None`, and only truthy values count. */
  predicate Given(f: Field, stylePrompt: string, s: SessionState) {
    match f
    case StyleText => stylePrompt != ""
    case Season => Truthy(s.selectedSeason)
    case Occasion => Truthy(s.selectedOccasion)
    case ColorTone => Truthy(s.selectedColor)
  }

  /** The `if`/`elif` chain run when the generate button is pressed: the
      first missing input, or `None` when all four are given. */
  function Validate(stylePrompt: string, s: SessionState): (r: Option<Field>)
    ensures r.None? <==>
      stylePrompt != "" && Truthy(s.selectedSeason) && Truthy(s.selectedOccasion) && Truthy(s.selectedColor)
    ensures r.Some? ==> !Given(r.value, stylePrompt, s)
  {
    if stylePrompt == "" then Some(StyleText)
    else if !Truthy(s.selectedSeason) then Some(Season)
    else if !Truthy(s.selectedOccasion) then Some(Occasion)
    else if !Truthy(s.selectedColor) then Some(ColorTone)
    else None
  }

  /** Validation passes exactly when every input is given, and otherwise
      names a missing input all of whose predecessors are given. */
  lemma ValidateReportsFirstMissing(stylePrompt: string, s: SessionState)
    ensures Validate(stylePrompt, s).None? <==> forall f :: Given(f, stylePrompt, s)
    ensures Validate(stylePrompt, s).Some? ==>
      var f := Validate(stylePrompt, s).value;
      !Given(f, stylePrompt, s) && forall g :: Rank(g) < Rank(f) ==> Given(g, stylePrompt, s)
  {
    if Validate(stylePrompt, s).None? {
      forall f ensures Given(f, stylePrompt, s) {
        match f
        case StyleText =>
        case Season =>
        case Occasion =>
        case ColorTone =>
      }
    } else {
      var f := Validate(stylePrompt, s).value;
      assert !Given(f, stylePrompt, s);
      forall g | Rank(g) < Rank(f) ensures Given(g, stylePrompt, s) {
        match g
        case StyleText =>
        case Season =>
        case Occasion =>
        case ColorTone =>
      }
    }
  }

  // ---------------------------------------------------------------- pipeline

  /** A message the page shows with `st.error`, `st.success` or `st.warning`. */
  datatype Notice = ErrorNotice(text: string) | SuccessNotice(text: string) | WarningNotice(text: string)

  /** A call into a remote endpoint, in the order the page makes them. */
  datatype Call = ChatCall(request: Llm.ChatRequest) | ImageCall(prompt: string) | DownloadCall(url: string)

  /** The session after a press of the generate button, what the page showed
      and which remote calls it made. */
  datatype Run = Run(state: SessionState, notices: seq<Notice>, calls: seq<Call>)

  /** The generate button's handler: validation, the text call, and the image
      call on the image prompt the text call produced. A text failure ends the
      run with nothing changed; an image failure or a missing URL only warns. */
  function Pipeline(s: SessionState, stylePrompt: string, upload: Option<Bytes>,
                    chat: Llm.ChatRequest -> Outcome<string>, imageGen: string -> Outcome<Option<string>>): (r: Run)
    ensures r.state.selectedSeason == s.selectedSeason && r.state.selectedOccasion == s.selectedOccasion
    ensures r.state.selectedColor == s.selectedColor
    ensures r.calls == [] <==> Validate(stylePrompt, s).Some?
    ensures r.calls != [] ==>
      r.calls[0] == ChatCall(Llm.Request(stylePrompt, s.selectedSeason.value, s.selectedOccasion.value,
                                         s.selectedColor.value, upload))
    ensures |r.calls| < 2 ==> r.state == s && |r.notices| == 1 && r.notices[0].ErrorNotice?
    ensures |r.calls| == 2 ==>
      r.state.imagePrompt.Some? && r.calls[1] == ImageCall(r.state.imagePrompt.value) && r.state.recommendation.Some?
    ensures r.state.generatedImageUrl != s.generatedImageUrl ==> |r.calls| == 2 && Truthy(r.state.generatedImageUrl)
  {
    match Validate(stylePrompt, s)
    case Some(f) => Run(s, [ErrorNotice(MissingMessage(f))], [])
    case None =>
      var season, occasion, color := s.selectedSeason.value, s.selectedOccasion.value, s.selectedColor.value;
      var request := Llm.Request(stylePrompt, season, occasion, color, upload);
      match chat(request)
      case Raised(e) => Run(s, [ErrorNotice(TextErrorHead + e)], [ChatCall(request)])
      case Returned(reply) =>
        var parsed := Llm.ParseReply(reply, season, occasion, color);
        var texted := s.(recommendation := Some(parsed.recommendation), imagePrompt := Some(parsed.imagePrompt));
        var calls := [ChatCall(request), ImageCall(parsed.imagePrompt)];
        match imageGen(parsed.imagePrompt)
        case Raised(e) => Run(texted, [SuccessNotice(TextDoneMessage), WarningNotice(ImageErrorHead + e)], calls)
        case Returned(url) =>
          if Truthy(url) then
            Run(texted.(generatedImageUrl := url), [SuccessNotice(TextDoneMessage), SuccessNotice(ImageDoneMessage)], calls)
          else
            Run(texted, [SuccessNotice(TextDoneMessage), WarningNotice(ImageMissingMessage)], calls)
  }

  /** A missing input is reported by its own message and nothing is called. */
  lemma ValidationBlocksCalls(s: SessionState, stylePrompt: string, upload: Option<Bytes>,
                              chat: Llm.ChatRequest -> Outcome<string>, imageGen: string -> Outcome<Option<string>>)
    requires Validate(stylePrompt, s).Some?
    ensures var r := Pipeline(s, stylePrompt, upload, chat, imageGen);
      r.calls == [] && r.state == s && r.notices == [ErrorNotice(MissingMessage(Validate(stylePrompt, s).value))]
  {
    hide Llm.Request, Llm.ParseReply;
  }

  /** A failed text call is reported with the exception's text, the image
      endpoint is never called and the session keeps its old results. */
  lemma TextFailureStops(s: SessionState, stylePrompt: string, upload: Option<Bytes>,
                         chat: Llm.ChatRequest -> Outcome<string>, imageGen: string -> Outcome<Option<string>>)
    requires Validate(stylePrompt, s).None?
    requires chat(Llm.Request(stylePrompt, s.selectedSeason.value, s.selectedOccasion.value, s.selectedColor.value,
                              upload)).Raised?
    ensures var r := Pipeline(s, stylePrompt, upload, chat, imageGen);
      var e := chat(Llm.Request(stylePrompt, s.selectedSeason.value, s.selectedOccasion.value, s.selectedColor.value,
                                upload)).message;
      |r.calls| == 1 && r.state == s && r.notices == [ErrorNotice(TextErrorHead + e)]
  {
    hide Llm.Request, Llm.ParseReply;
  }

  /** After a reply, the recommendation and the image prompt are the parse of
      the reply, and the image endpoint is given exactly that image prompt. */
  lemma ImageCallGetsParsedPrompt(s: SessionState, stylePrompt: string, upload: Option<Bytes>,
                                  chat: Llm.ChatRequest -> Outcome<string>,
                                  imageGen: string -> Outcome<Option<string>>)
    requires Validate(stylePrompt, s).None?
    requires chat(Llm.Request(stylePrompt, s.selectedSeason.value, s.selectedOccasion.value, s.selectedColor.value,
                              upload)).Returned?
    ensures var reply := chat(Llm.Request(stylePrompt, s.selectedSeason.value, s.selectedOccasion.value,
                                          s.selectedColor.value, upload)).value;
      var parsed := Llm.ParseReply(reply, s.selectedSeason.value, s.selectedOccasion.value, s.selectedColor.value);
      var r := Pipeline(s, stylePrompt, upload, chat, imageGen);
      && r.state.recommendation == Some(parsed.recommendation)
      && r.state.imagePrompt == Some(parsed.imagePrompt)
      && r.calls[1] == ImageCall(parsed.imagePrompt)
      && r.notices[0] == SuccessNotice(TextDoneMessage)
  {
    hide Llm.Request, Llm.ParseReply;
  }

  /** The image URL is replaced only by a truthy URL; an exception or an
      empty answer leaves the previous URL and only adds a warning. */
  lemma ImageOutcomeDecidesUrl(s: SessionState, stylePrompt: string, upload: Option<Bytes>,
                               chat: Llm.ChatRequest -> Outcome<string>, imageGen: string -> Outcome<Option<string>>)
    requires Validate(stylePrompt, s).None?
    requires chat(Llm.Request(stylePrompt, s.selectedSeason.value, s.selectedOccasion.value, s.selectedColor.value,
                              upload)).Returned?
    ensures var r := Pipeline(s, stylePrompt, upload, chat, imageGen);
      var image := imageGen(r.state.imagePrompt.value);
      && (image.Returned? && Truthy(image.value) ==>
            r.state.generatedImageUrl == image.value && r.notices[1] == SuccessNotice(ImageDoneMessage))
      && (image.Returned? && !Truthy(image.value) ==>
            r.state.generatedImageUrl == s.generatedImageUrl && r.notices[1] == WarningNotice(ImageMissingMessage))
      && (image.Raised? ==>
            r.state.generatedImageUrl == s.generatedImageUrl && r.notices[1] == WarningNotice(ImageErrorHead + image.message))
  {
    hide Llm.Request, Llm.ParseReply;
  }

  /** A consistent session stays consistent through the pipeline. */
  lemma PipelineKeepsConsistent(s: SessionState, stylePrompt: string, upload: Option<Bytes>,
                                chat: Llm.ChatRequest -> Outcome<string>, imageGen: string -> Outcome<Option<string>>)
    requires Consistent(s)
    ensures Consistent(Pipeline(s, stylePrompt, upload, chat, imageGen).state)
  {
    hide Llm.Request, Llm.ParseReply;
  }

  // ---------------------------------------------------------------- display

  /** The results area: nothing but the hint, or the recommendation with the
      generated image (when there is one), the download data (when the
      download returned any) and the image prompt (empty when never set). */
  datatype View =
    | Placeholder
    | Results(recommendation: string, image: Option<string>, downloadData: Option<Bytes>, shownPrompt: string)

  /** `b""` and `None` from the download both mean no download control. */
  predicate HasData(data: Option<Bytes>) {
    data.Some? && |data.value| > 0
  }

  function ViewOf(s: SessionState, download: string -> Option<Bytes>): (v: View)
    ensures v.Results? <==> Truthy(s.recommendation)
    ensures v.Results? ==> v.recommendation == s.recommendation.value
    ensures v.Results? ==> (v.image.Some? <==> Truthy(s.generatedImageUrl))
    ensures v.Results? && v.image.Some? ==> v.image == s.generatedImageUrl
    ensures v.Results? ==>
      (v.downloadData.Some? <==> Truthy(s.generatedImageUrl) && HasData(download(s.generatedImageUrl.value)))
    ensures v.Results? && v.downloadData.Some? ==> v.downloadData == download(s.generatedImageUrl.value)
    ensures v.Results? ==> v.shownPrompt == (if s.imagePrompt.Some? then s.imagePrompt.value else "")
    ensures v.Results? && Consistent(s) ==> v.shownPrompt == s.imagePrompt.value
  {
    if !Truthy(s.recommendation) then Placeholder
    else
      var image := if Truthy(s.generatedImageUrl) then s.generatedImageUrl else None;
      var data := if image.Some? && HasData(download(image.value)) then download(image.value) else None;
      Results(s.recommendation.value, image, data, if s.imagePrompt.Some? then s.imagePrompt.value else "")
  }

  /** The download control needs all three: a recommendation, an image URL
      and bytes from the download. */
  lemma DownloadOnlyWithAll(s: SessionState, download: string -> Option<Bytes>)
    ensures var v := ViewOf(s, download);
      (v.Results? && v.downloadData.Some?) <==>
        Truthy(s.recommendation) && Truthy(s.generatedImageUrl) && HasData(download(s.generatedImageUrl.value))
  {
  }

  /** When an image call fails after an earlier run stored an image, the new
      recommendation is shown beside the earlier run's image. */
  lemma EarlierImageStaysOnFailure(s: SessionState, stylePrompt: string, upload: Option<Bytes>,
                                   chat: Llm.ChatRequest -> Outcome<string>,
                                   imageGen: string -> Outcome<Option<string>>, download: string -> Option<Bytes>)
    requires Truthy(s.generatedImageUrl)
    requires Validate(stylePrompt, s).None?
    requires chat(Llm.Request(stylePrompt, s.selectedSeason.value, s.selectedOccasion.value, s.selectedColor.value,
                              upload)).Returned?
    requires var r := Pipeline(s, stylePrompt, upload, chat, imageGen);
      Truthy(r.state.recommendation) && !(imageGen(r.state.imagePrompt.value).Returned? &&
                                          Truthy(imageGen(r.state.imagePrompt.value).value))
    ensures var v := ViewOf(Pipeline(s, stylePrompt, upload, chat, imageGen).state, download);
      v.Results? && v.image == s.generatedImageUrl
  {
    hide Llm.Request, Llm.ParseReply;
    ImageOutcomeDecidesUrl(s, stylePrompt, upload, chat, imageGen);
  }

  // ---------------------------------------------------------------- regenerate

  /** The regenerate button's effect: the recommendation and the image URL
      are cleared; the selections and the image prompt stay, and so does
      consistency. */
  function Cleared(s: SessionState): (t: SessionState)
    ensures !Truthy(t.recommendation) && !Truthy(t.generatedImageUrl)
    ensures t.selectedSeason == s.selectedSeason && t.selectedOccasion == s.selectedOccasion
    ensures t.selectedColor == s.selectedColor && t.imagePrompt == s.imagePrompt
    ensures Consistent(s) ==> Consistent(t)
  {
    s.(recommendation := None, generatedImageUrl := None)
  }

  /** After regenerating, the results area shows only the hint, whatever
      the download would return. */
  lemma ClearedShowsPlaceholder(s: SessionState, download: string -> Option<Bytes>)
    ensures ViewOf(Cleared(s), download) == Placeholder
  {
  }

  // ---------------------------------------------------------------- one run of the page

  /** What the user did before this run of the page script. */
  datatype Interaction = Interaction(
    stylePrompt: string,
    upload: Option<Bytes>,
    seasonPressed: seq<bool>,
    occasionPressed: seq<bool>,
    colorPressed: seq<bool>,
    generatePressed: bool,
    regeneratePressed: bool)

  predicate WellFormed(input: Interaction) {
    && |input.seasonPressed| == |SeasonValues|
    && |input.occasionPressed| == |OccasionValues|
    && |input.colorPressed| == |ColorValues|
  }

  /** The selections after the three rows of buttons: the results are left
      alone, and a consistent session stays consistent. */
  function Selected(s: SessionState, input: Interaction): (t: SessionState)
    requires WellFormed(input)
    ensures t.recommendation == s.recommendation && t.imagePrompt == s.imagePrompt
    ensures t.generatedImageUrl == s.generatedImageUrl
    ensures Consistent(s) ==> Consistent(t)
  {
    s.(selectedSeason := Chosen(SeasonValues, input.seasonPressed, s.selectedSeason),
       selectedOccasion := Chosen(OccasionValues, input.occasionPressed, s.selectedOccasion),
       selectedColor := Chosen(ColorValues, input.colorPressed, s.selectedColor))
  }

  /** The session of a browser tab: the fields `main()` keeps in
      `st.session_state`. */
  class Session {
    var selectedSeason: Option<string>
    var selectedOccasion: Option<string>
    var selectedColor: Option<string>
    var recommendation: Option<string>
    var imagePrompt: Option<string>
    var generatedImageUrl: Option<string>

    function Snapshot(): SessionState
      reads this
    {
      SessionState(selectedSeason, selectedOccasion, selectedColor, recommendation, imagePrompt, generatedImageUrl)
    }

    predicate Valid()
      reads this
    {
      Consistent(Snapshot())
    }

    /** A new session: the selections are set to `None` on the first run and
        the results are not there yet. */
    constructor ()
      ensures Valid()
      ensures Snapshot() == SessionState(None, None, None, None, None, None)
    {
      selectedSeason, selectedOccasion, selectedColor := None, None, None;
      recommendation, imagePrompt, generatedImageUrl := None, None, None;
    }

    /** The three rows of selection buttons, row by row. */
    method PressButtons(input: Interaction)
      requires WellFormed(input) && Valid()
      modifies this
      ensures Valid()
      ensures Snapshot() == Selected(old(Snapshot()), input)
    {
      selectedSeason := PressedValue(SeasonValues, input.seasonPressed, selectedSeason);
      selectedOccasion := PressedValue(OccasionValues, input.occasionPressed, selectedOccasion);
      selectedColor := PressedValue(ColorValues, input.colorPressed, selectedColor);
    }

    /** The generate button's handler, step by step: validate, call the text
        endpoint through `generate_outfit_recommendation`, store both texts,
        call the image endpoint on the stored image prompt. */
    method Generate(stylePrompt: string, upload: Option<Bytes>, chat: Llm.ChatRequest -> Outcome<string>,
                    imageGen: string -> Outcome<Option<string>>)
      returns (notices: seq<Notice>, calls: seq<Call>)
      requires Valid()
      modifies this
      ensures Valid()
      ensures var r := Pipeline(old(Snapshot()), stylePrompt, upload, chat, imageGen);
        Snapshot() == r.state && notices == r.notices && calls == r.calls
    {
      hide Llm.Request, Llm.ParseReply, Llm.ToDict;
      PipelineKeepsConsistent(Snapshot(), stylePrompt, upload, chat, imageGen);
      var missing := Validate(stylePrompt, Snapshot());
      if missing.Some? {
        notices, calls := [ErrorNotice(MissingMessage(missing.value))], [];
        return;
      }
      var result, sent := Llm.GenerateOutfitRecommendation(chat, stylePrompt, selectedSeason.value,
                                                           selectedOccasion.value, selectedColor.value, upload);
      calls := [ChatCall(sent)];
      if result.Raised? {
        notices := [ErrorNotice(TextErrorHead + result.message)];
        return;
      }
      recommendation := Some(result.value[Llm.RecommendationKey]);
      imagePrompt := Some(result.value[Llm.ImagePromptKey]);
      notices := [SuccessNotice(TextDoneMessage)];
      var image := imageGen(imagePrompt.value);
      calls := calls + [ImageCall(imagePrompt.value)];
      match image {
        case Raised(e) =>
          notices := notices + [WarningNotice(ImageErrorHead + e)];
        case Returned(url) =>
          if Truthy(url) {
            generatedImageUrl := url;
            notices := notices + [SuccessNotice(ImageDoneMessage)];
          } else {
            notices := notices + [WarningNotice(ImageMissingMessage)];
          }
      }
    }

    /** The regenerate button's handler. */
    method Regenerate()
      requires Valid()
      modifies this
      ensures Valid()
      ensures Snapshot() == Cleared(old(Snapshot()))
    {
      recommendation := None;
      generatedImageUrl := None;
    }

    /** One run of the page script: the buttons, the generate handler when
        its button was pressed, the results area, and the regenerate handler
        when the results area was shown and its button pressed; the rerun that
        follows a regenerate shows the area again from the cleared session.
        Showing an image downloads it, so that download is the last call.
        A failed text call returns from the script before the results area,
        so that run shows none (`None`). */
    method RunPage(input: Interaction, chat: Llm.ChatRequest -> Outcome<string>,
                   imageGen: string -> Outcome<Option<string>>, download: string -> Option<Bytes>)
      returns (notices: seq<Notice>, calls: seq<Call>, view: Option<View>)
      requires WellFormed(input) && Valid()
      modifies this
      ensures Valid()
      ensures var selected := Selected(old(Snapshot()), input);
        var r := if input.generatePressed then Pipeline(selected, input.stylePrompt, input.upload, chat, imageGen)
                 else Run(selected, [], []);
        var shown := ViewOf(r.state, download);
        && notices == r.notices
        && (|r.calls| == 1 ==> Snapshot() == r.state && view == None && calls == r.calls)
        && (|r.calls| != 1 && Truthy(r.state.recommendation) && Truthy(r.state.generatedImageUrl) ==>
              calls == r.calls + [DownloadCall(r.state.generatedImageUrl.value)])
        && (|r.calls| != 1 && !(Truthy(r.state.recommendation) && Truthy(r.state.generatedImageUrl)) ==>
              calls == r.calls)
        && (|r.calls| != 1 && input.regeneratePressed && shown.Results? ==>
              Snapshot() == Cleared(r.state) && view == Some(Placeholder))
        && (|r.calls| != 1 && !(input.regeneratePressed && shown.Results?) ==>
              Snapshot() == r.state && view == Some(shown))
    {
      PressButtons(input);
      notices, calls := [], [];
      if input.generatePressed {
        notices, calls := Generate(input.stylePrompt, input.upload, chat, imageGen);
        if |calls| == 1 {
          view := None;
          return;
        }
      }
      var shown := ViewOf(Snapshot(), download);
      if shown.Results? && shown.image.Some? {
        calls := calls + [DownloadCall(shown.image.value)];
      }
      if input.regeneratePressed && shown.Results? {
        Regenerate();
        shown := ViewOf(Snapshot(), download);
      }
      view := Some(shown);
    }
  }
}
