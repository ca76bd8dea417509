# outfit_genAI in Dafny

This project models the core of outfit_genAI, a Streamlit page that turns a user's style request into an outfit recommendation and an illustration. The user types a style request, may upload a photo, and picks a season, an occasion and a colour tone with three rows of buttons. The page then runs two remote calls in sequence:

- a GPT-4o chat call, which returns the recommendation text;
- an image-generation call on the image prompt that the chat reply carries between the sentinel markers `IMAGE_PROMPT_START` and `IMAGE_PROMPT_END`.

The model has five modules:

- `Wrappers` (`wrappers.dfy`):
  - `Option`;
  - `Outcome`, which is either a returned value or a raised exception with its message.
- `PyText` (`py_text.dfy`): the Python string operations the reply parser relies on:
  - `str.find` and `in`;
  - slicing with negative and clamped bounds;
  - `str.strip` over the characters `str.isspace` accepts.
- `Base64` (`base64.dfy`): the `base64.b64encode` that turns the uploaded photo into a data URL. It follows section 4 of RFC 4648 and comes with a decoder, its round-trip partner.
- `Llm` (`llm.dfy`): `generate_outfit_recommendation`:
  - the user message content and its text, with the photo part first when there is a photo;
  - the request that is sent;
  - the parser that splits the reply at the markers and at the `---` line, with the fallback image prompt when a marker is missing;
  - the result dictionary.
- `App` (`app.dfy`): the session-state machine of `main()`. A `Session` class holds the six session fields, and its methods are:
  - `PressButtons`: the button rows;
  - `Generate`: the generate handler (validation chain, text call, image call), proved equal to the specification function `Pipeline`;
  - `Regenerate`: the regenerate handler;
  - `RunPage`: one run of the page script, top to bottom, returning what the results area shows (`ViewOf`).

The three remote services are function-valued parameters: the chat endpoint, the image endpoint and the download. The chat endpoint maps a `ChatRequest` to an `Outcome<string>`. The image endpoint maps a prompt to an `Outcome<Option<string>>`. The download maps a URL to an `Option` of bytes. `Generate` and `RunPage` return the list of calls they made, so that "no call unless …" can be stated: the chat call, the image call, and the download of an image the results area shows. `PressButtons` and `Regenerate` make no call.

One run of the page is modelled from an `Interaction` that records, per button, whether it was pressed. Streamlit delivers one click per rerun, so in practice at most one of these flags is set. The model also allows several presses in one run; "the last pressed button of a row decides" describes the model's loop over the columns for that case, not a behaviour a user can trigger.

Behaviour of the code worth knowing:

- **Regenerate.** The regenerate button only clears `recommendation` and `generated_image_url` and reruns the page. It does not re-validate or restart the pipeline; a new press of the generate button does that.
- **Validation.** The validation chain reports only the first missing input, in the order style text, season, occasion, colour tone. It does not report every missing field.
- **Failed image call.** A failed or empty image call leaves `generated_image_url` as it was, so an image from an earlier run stays on screen beside the new recommendation (`App.EarlierImageStaysOnFailure`).
- **No `---` line.** When both markers are present but the `---\nIMAGE_PROMPT_START` line is not, `find` returns -1. The slice `[:-1]` then keeps the whole reply except its last character, marker block included (`Llm.RecommendationWithoutSeparator`).

## Model

| member | source | states |
|---|---|---|
| Base64.Encode | utils/llm.py:6-8 | every three bytes become four characters, so the text is `4 * ceil(n / 3)` long |
| Base64.ValueOfCharOf | utils/llm.py:6-8 | every alphabet character the encoder writes reads back as its 6-bit value |
| Base64.EncodeAlphabet | utils/llm.py:6-8 | every character of the encoding is an alphabet character or the pad `=` |
| Base64.GroupRoundTrip | utils/llm.py:6-8 | splitting three bytes into four 6-bit values and joining them back gives the three bytes |
| Base64.DecodeEncode | utils/llm.py:6-8 | decoding the encoding of any byte string gives the byte string back |
| PyText.Strip | utils/llm.py:94 | `strip()` leaves no whitespace at either end and is never longer than its input |
| PyText.StripLeftSpec | utils/llm.py:94 | `lstrip()` removes exactly the leading whitespace run |
| PyText.StripRightSpec | utils/llm.py:94 | `rstrip()` removes exactly the trailing whitespace run |
| PyText.StripFramed | utils/llm.py:94 | what `strip()` keeps sits inside the input with only whitespace around it |
| PyText.StripUnique | utils/llm.py:94 | a trimmed text padded with whitespace on both sides strips to itself |
| PyText.StripPadded | utils/llm.py:94 | adding whitespace around a text never changes what `strip()` keeps |
| PyText.StripTrimmed | utils/llm.py:94 | a text with no whitespace at either end is its own `strip()` |
| PyText.StripIdempotent | utils/llm.py:94 | `strip()` applied twice equals `strip()` applied once |
| PyText.Find | utils/llm.py:92-93 | `s.find(pat)` is -1 or an index where the whole pattern fits; `PyText.FindSpec` pins it to the lowest occurrence |
| PyText.Contains | utils/llm.py:91 | `pat in s`, defined through `find`; `PyText.ContainsSpec` states it holds iff the pattern occurs |
| PyText.FindSpec | utils/llm.py:92-93 | `find` gives -1 exactly when the pattern does not occur, and otherwise its lowest occurrence |
| PyText.FindIsFirst | utils/llm.py:92-93 | the lowest occurrence of a pattern is what `find` returns |
| PyText.ContainsSpec | utils/llm.py:91 | `pat in s` holds exactly when the pattern occurs in `s` |
| PyText.Slice | utils/llm.py:94-96 | Python slicing: in-range bounds give the subsequence, reversed bounds give the empty one, and a negative stop counts from the end |
| PyText.SliceBound | utils/llm.py:96 | a negative bound counts from the end, and the result is clamped to `[0, n]`: above `n` gives `n`, below `-n` gives 0 |
| Llm.DataUrl | utils/llm.py:52-60 | the image URL starts with `data:image/jpeg;base64,` and the rest decodes back to the photo |
| Llm.HasImage | utils/llm.py:52 | the truthiness test on `image_bytes`: `None` and empty bytes are no photo; `Llm.UserContent` and `Llm.PhotoHintIffImage` state what it decides |
| Llm.UserContent | utils/llm.py:49-75 | two parts when a non-empty photo is given (image part with detail `low` first) and one otherwise; the text part is always last |
| Llm.BuildUserContent | utils/llm.py:49-75 | the appends to the initially empty list build exactly `UserContent` |
| Llm.UserText | utils/llm.py:65-74 | the user text opens with a newline and is longer than all its inputs together; `Llm.UserTextMentionsInputs` places each input after its label |
| Llm.Request | utils/llm.py:77-85 | model `gpt-4o`, `max_tokens` 1500, temperature 0.7, the system prompt as first message and the user content as second |
| Llm.PhotoHintIffImage | utils/llm.py:52-66 | the user text opens with the photo hint exactly when a non-empty photo was given |
| Llm.UserTextHead | utils/llm.py:65-68 | the user text starts with its newline, the image context and the style label |
| Llm.UserTextMentionsInputs | utils/llm.py:65-74 | each of the four inputs follows its own label in the user text, at the offset the earlier lines add up to |
| Llm.FallbackPrompt | utils/llm.py:100 | the fallback prompt is longer than its fixed opening; `Llm.FallbackNamesInputs` places the three inputs in it |
| Llm.FallbackNamesInputs | utils/llm.py:100 | the fallback prompt names the season, the occasion and the colour tone, in that order, at fixed offsets |
| Llm.CutIsShorter | utils/llm.py:96 | cutting at the `---` line, or before the last character when there is none, leaves less than the whole reply |
| Llm.CutAt | utils/llm.py:92-96 | the two texts cut at the `find` results are both stripped of surrounding whitespace |
| Llm.ParseReply | utils/llm.py:89-101 | with both markers both texts are trimmed and the recommendation is shorter than the reply; otherwise the reply is kept verbatim with the fallback prompt |
| Llm.ToDict | utils/llm.py:102-105 | the result has exactly the keys `recommendation` and `image_prompt`, holding the two parsed texts |
| Llm.PromptBetweenFirstMarkers | utils/llm.py:91-94 | the image prompt is the stripped text between the end of the first start marker and the first end marker |
| Llm.ReversedMarkersGiveEmptyPrompt | utils/llm.py:92-94 | when the first end marker comes before the first start marker ends, the image prompt is empty |
| Llm.RecommendationBeforeSeparator | utils/llm.py:96 | the recommendation is the stripped text before the first `---\nIMAGE_PROMPT_START` |
| Llm.RecommendationWithoutSeparator | utils/llm.py:96 | with both markers and no `---` line, the recommendation is the stripped reply minus its last character |
| Llm.TemplateStart | utils/llm.py:43-44 | in a reply laid out as the system prompt asks, `find` locates the start marker right after the rule line |
| Llm.TemplateEnd | utils/llm.py:44-46 | in that layout, `find` locates the end marker right after the image-prompt line |
| Llm.TemplateSeparator | utils/llm.py:43-44 | in that layout, `find` locates the `---` line directly after the body |
| Llm.TemplateReplyParses | utils/llm.py:89-105 | a reply in the system prompt's layout parses into its stripped body and its stripped image prompt |
| Llm.TrimmedTemplateParses | utils/llm.py:89-105 | parsing undoes the layout: a trimmed body and a trimmed prompt come back unchanged |
| Llm.ShortReplyExample | utils/llm.py:89-96 | the reply with body `X` and image prompt `P` parses to `X` and `P` |
| Llm.CampusReplyExample | utils/llm.py:89-96 | the spring campus cool-tone reply parses into its body and its image-prompt line |
| Llm.GenerateOutfitRecommendation | utils/llm.py:11-105 | the request sent is `Request` of the inputs; a raised chat call propagates its message; a reply is parsed into the result dictionary |
| App.ChosenIsLastPressed | app.py:128-131 | the last pressed button of a row decides the stored value |
| App.ChosenUnpressed | app.py:125-131 | with no button pressed the field keeps its value |
| App.Chosen | app.py:128-131 | a row stores one of its own values or keeps the old one; `App.ChosenIsLastPressed` and `App.ChosenUnpressed` say which |
| App.PressedValue | app.py:128-131 | the loop over the columns leaves exactly the value `Chosen` specifies |
| App.Selected | app.py:125-165 | the three button rows leave the results untouched and keep every selection among its row's values |
| App.ValidateReportsFirstMissing | app.py:179-187 | validation passes iff all four inputs are given, and otherwise names a missing input all of whose predecessors are given |
| App.Validate | app.py:179-187 | the chain passes iff the style text is non-empty and all three selections are truthy, and a reported field is really missing |
| App.Pipeline | app.py:177-223 | selections never change; calls are made iff validation passes, and the first is the chat request; with fewer than two calls the session is unchanged and one error is shown; the image call gets the stored image prompt; the URL changes only to a truthy one after both calls |
| App.ValidationBlocksCalls | app.py:179-187 | a missing input shows its own message, makes no call and changes nothing |
| App.TextFailureStops | app.py:196-211 | a raised text call shows the error with its message, makes no image call and changes nothing |
| App.ImageCallGetsParsedPrompt | app.py:196-216 | after a reply the session holds its parsed recommendation and image prompt, and the image call gets that prompt |
| App.ImageOutcomeDecidesUrl | app.py:214-223 | a truthy URL is stored with a success notice; an empty answer or an exception keeps the old URL and warns |
| App.PipelineKeepsConsistent | app.py:177-223 | the pipeline keeps selections valid, a recommendation paired with its prompt, and a stored URL non-empty |
| App.ViewOf | app.py:226-256 | the results area shows iff the recommendation is truthy; the image iff the URL is truthy; the download control iff the download returned bytes, and it offers those bytes; the prompt shown is the stored image prompt, or `""` when there is none |
| App.DownloadOnlyWithAll | app.py:226-243 | the download control appears iff there is a recommendation, an image URL and non-empty downloaded data |
| App.EarlierImageStaysOnFailure | app.py:214-233 | after a failed image call, an earlier run's image is shown beside the new recommendation |
| App.ClearedShowsPlaceholder | app.py:249-256 | after regenerate only the placeholder shows, whatever the download would return |
| App.Cleared | app.py:250-252 | regenerate leaves no recommendation and no image URL, keeps the selections and the image prompt, and keeps the session consistent |
| App.Session.constructor | app.py:125-126 | a new session has every field unset |
| App.Session.PressButtons | app.py:125-168 | the session after the three rows is `Selected` of the old one |
| App.Session.Generate | app.py:177-223 | the new session, the notices and the calls are those of `Pipeline` on the old session |
| App.Session.Regenerate | app.py:249-253 | clears the recommendation and image URL and nothing else |
| App.Session.RunPage | app.py:120-256 | buttons, then the handler, then the results area (none after a failed text call), then regenerate with the placeholder its rerun shows; the image shown is downloaded, and that download is traced as the last call |

## Left out

- Streamlit rendering: headers, the `st.info` selection echoes, spinners, columns, the photo preview, the footer and the page config. Notices are kept as a list and the results area as a `View`.
- The API-key sidebar, the `OpenAI` client construction and the early return when no key is given. The client is the `chat` parameter.
- The ngrok launcher `run_with_ngrok.py` is not part of this model.
- The internals of `generate_outfit_image` and `download_image` in `utils/image_gen.py`: the DALL-E 3 parameters, HTTP, the timeout and the status check. They are the `imageGen` and `download` parameters. The real `generate_outfit_image` catches its own exceptions; the model still allows the `Raised` case, as `app.py` handles it.
- `message.content` being `None`: a reply is always a string here.
- The upload's `seek`/`read`: the uploaded bytes are the `upload` parameter.
- The real-number `temperature` is kept as a constant only. Nothing is computed with it.
- Llm.CampusReplyExample: the image prompt is an illustrative literal, written in three pieces.
- No lemma parses `SystemPrompt` itself. The layout it asks for is stated for any body and prompt instead (`Llm.TemplateReplyParses`).
- Llm.ShortReplyExample: it is stated on `TemplateReply("X", "P")` rather than on the written-out reply string.
- App.Session.RunPage: `st.rerun()` is modelled as the placeholder its rerun shows. The rest of that rerun, with no button pressed, is not modelled.
