# perspective-engine: response sanitizer and model selector

perspective-engine is a Streamlit app. A user describes a problem, and a
generative backend returns a JSON report on the emotions involved and a
reframing of the situation. Two pieces of `app.py` hold the logic:

- **The response sanitizer** (`clean_json_string`) takes the text the backend
  returns and prepares it for `json.loads`. It removes the backticks of Markdown code
  fences and a `json` tag after them (any other tag is left in place),
  turns raw line feeds into spaces, deletes carriage returns and strips
  whitespace from both ends.
- **The model selector** (`get_working_model`) reads the provider's model
  catalogue and keeps the models that support `generateContent`, in listing
  order. It then picks one by four tiers:
  1. a name containing `flash` (case-insensitive) and `1.5`;
  2. any `flash` name;
  3. a name containing `gemini-pro` (case-sensitive);
  4. any name without `2.5-pro`.

  If no tier matches, or the listing fails, it returns
  `models/gemini-1.5-flash`.

The project has three modules:

- `Strings` (`strings.dfy`) models the Python string operations the
  sanitizer and the model selector use:
  - `re.sub` with a literal pattern;
  - `str.replace` for single characters;
  - `str.strip` with Python's `isspace` character set;
  - substring search, `t in s`;
  - `str.lower`, as far as a test for `flash` can observe it.
- `Sanitizer` (`sanitizer.dfy`) composes `re.sub`, `str.replace` and
  `str.strip` in the source's order and proves what the output looks like.
- `ModelSelector` (`model_selector.dfy`) gives the selection policy as a
  function over the listing. Beside it:
  - `GetWorkingModel` is the source's imperative form: an append loop, then
    four scanning loops with early returns. It is proved to compute that
    function.
  - The tier-priority properties are proved as lemmas about the function.

The sanitizer is not idempotent in general:

- `Sanitizer.CleanIdempotent` proves idempotence for input without a
  carriage return.
- `Sanitizer.CleanNotIdempotent` gives a counterexample. Deleting the `\r`
  in ``"``\r`"`` joins three backticks, and only a second pass removes them.

## Model

| member | source | states |
|---|---|---|
| Strings.Contains | app.py:77-92 | Python's `t in s`: `t` occurs in `s` as a contiguous block, tried at every position from the left. |
| Strings.RemoveAll | app.py:56 | `re.sub` of a literal pattern as a left-to-right, non-overlapping scan. The result is no longer than the input. Text without the pattern is returned unchanged. |
| Strings.RemoveAllKeepsChars | app.py:56 | The removal keeps only characters of the input. |
| Strings.RemoveAllAppend | app.py:56 | Text that does not contain the pattern's first character passes through untouched, whatever follows it. |
| Strings.RemoveFenceLeavesNone | app.py:56 | After the triple-backtick pass, no triple backtick is left anywhere in the result. |
| Strings.ReplaceChar | app.py:60 | `replace('\n', ' ')`. The length is kept, and each position is replaced exactly when it held the old character. The old character is then absent, and text without it is unchanged. |
| Strings.DeleteChar | app.py:60 | `replace('\r', '')`. The character is absent afterwards. Text without it is unchanged. |
| Strings.DeleteCharAppend | app.py:60 | Deletion distributes over concatenation, so the kept characters stay in their order. |
| Strings.DeleteCharKeepsOthers | app.py:60 | The deletion keeps every other character as often as it occurs. |
| Strings.IsSpace | app.py:62 | The characters `strip()` removes: Python's `isspace` set of 29 code points (0x09-0x0D, 0x1C-0x20, 0x85, 0xA0, 0x1680, 0x2000-0x200A, 0x2028, 0x2029, 0x202F, 0x205F, 0x3000). |
| Strings.Lower | app.py:77-82 | `lower()`, position by position. The length is kept, ASCII capitals are lowered and every other character is kept. |
| Strings.LowerIdempotent | app.py:77-82 | Lowering leaves no ASCII capital, so lowering twice is the same as lowering once. |
| Strings.Strip | app.py:62 | `strip()`. The result is a contiguous slice of the input with no Python whitespace at either end. |
| Strings.StripKeepsChars | app.py:62 | `strip()` keeps only characters of the input. |
| Strings.TrimStartDropsSpace | app.py:62 | The leading part that `strip()` drops is all whitespace. Together with the kept part not starting with whitespace, this makes the kept part the longest such suffix. |
| Strings.TrimEndDropsSpace | app.py:62 | The trailing part that `strip()` drops is all whitespace. |
| Strings.StripTrimmed | app.py:62 | Text with no whitespace at either end is its own `strip()`. |
| Strings.StripSurroundingSpace | app.py:62 | `strip()` removes exactly the whitespace around a text whose ends are not whitespace. |
| Sanitizer.AtJsonFenceIsPrefix | app.py:55 | The character-by-character match test at a position is exactly "```json" being a prefix there. |
| Sanitizer.RemoveJsonFences | app.py:55 | `re.sub(r'```json\n?', '', s)` as a left-to-right scan. Its contract bounds the result by the input's length. The lemmas below state what the scan keeps. |
| Sanitizer.RemoveJsonFencesKeepsChars | app.py:55 | The scan keeps only characters of the input. |
| Sanitizer.RemoveJsonFencesWithout | app.py:55 | Text in which "```json" never occurs is returned unchanged. |
| Sanitizer.RemoveJsonFencesAppend | app.py:55 | Text without a backtick passes through the scan untouched, whatever follows it. |
| Sanitizer.RemoveJsonFencesDropsFenceLine | app.py:55 | A "```json" and the line feed right after it are both removed. Backtick-free text before them is kept. |
| Sanitizer.RemoveJsonFencesDropsFence | app.py:55 | A "```json" without a line feed after it is removed alone, and the scan goes on with what follows. |
| Sanitizer.RemoveJsonFencesBareFence | app.py:55 | A fence that is bare or has a tag other than `json` passes the first regex untouched. |
| Sanitizer.Clean | app.py:50-62 | For every input, the output contains no line feed and no carriage return, and has no whitespace at either end. |
| Sanitizer.CleanStripsFences | app.py:55-62 | A `json`-fenced one-line payload with no backtick, no line break and no outer whitespace comes back as exactly the payload. |
| Sanitizer.CleanKeepsOtherTags | app.py:55-62 | A fence with another tag, or with none, loses its backticks. Its tag stays, joined to the payload by one space. |
| Sanitizer.CleanKeepsCleanText | app.py:55-62 | Text with no fence, no line break and no outer whitespace is returned unchanged. |
| Sanitizer.CleanIdempotent | app.py:55-62 | For input without a carriage return, cleaning twice equals cleaning once. |
| Sanitizer.CleanUnfencedText | app.py:55-62 | For text with no triple backtick and no line feed, only the carriage-return deletion and `strip()` have any effect. |
| Sanitizer.CleanNotIdempotent | app.py:55-62 | "``\r`" cleans to "```", and cleaning that again gives the empty string. |
| ModelSelector.IsCandidate | app.py:72 | A model qualifies exactly when `generateContent` is among its supported methods. |
| ModelSelector.IsFlash | app.py:77-82 | `'flash' in m.lower()`. |
| ModelSelector.Accepts | app.py:77-92 | Each tier's test: tier 1 is flash with "1.5" (case-sensitive), tier 2 is flash, tier 3 is "gemini-pro" (case-sensitive), and tier 4 is not "2.5-pro". |
| ModelSelector.Available | app.py:70-73 | The kept names are exactly the names of listed models that support `generateContent`. They are never more than the listing holds. |
| ModelSelector.AvailableSnoc | app.py:71-73 | Each loop step appends the model's name exactly when the model supports `generateContent`. |
| ModelSelector.FirstMatch | app.py:76-93 | One tier's scan. A hit is a kept name the tier accepts. The scan finds nothing exactly when the tier accepts no kept name. |
| ModelSelector.SelectFrom | app.py:76-95 | The tier cascade on the kept names. Its result is one of those names or the fallback. |
| ModelSelector.SelectModel | app.py:64-99 | The result is the name of a listed model that supports `generateContent`, or `models/gemini-1.5-flash`. |
| ModelSelector.ListAvailable | app.py:70-73 | The append loop computes `Available` of the listing. |
| ModelSelector.GetWorkingModel | app.py:64-99 | The loops with early returns, and the failure branch, return exactly `SelectModel` of the listing. |
| ModelSelector.NoMatchWithoutCandidate | app.py:76-93 | A tier's scan finds nothing exactly when no listed `generateContent` model passes that tier's test. |
| ModelSelector.FirstMatchFindsFirstCandidate | app.py:76-93 | A tier's scan returns the first model, in listing order, that supports `generateContent` and passes the tier's test. |
| ModelSelector.FirstCandidateExists | app.py:76-93 | When some candidate passes a tier's test, there is a first one in listing order. |
| ModelSelector.SelectionPriority | app.py:76-95 | The first tier that has a candidate decides, and it picks that tier's first candidate in listing order. With no candidate in any tier, including an empty listing or one where every candidate contains "2.5-pro", the result is the default. |
| ModelSelector.TierPrecedence | app.py:76-93 | A pick outside tier 1 means tier 1 had no candidate. A pick without `flash` means no candidate has `flash`. A pick that is neither `flash` nor `gemini-pro` means tier 3 had none. A "2.5-pro" pick can only come from tiers 1-3. |
| ModelSelector.ListingFailureYieldsDefault | app.py:97-99 | A failed listing yields `models/gemini-1.5-flash`, not an error. |
| ModelSelector.DefaultModelIsFlashOneFive | app.py:95-99 | The fallback name would itself pass tier 1. |
| ModelSelector.DefaultModelIsNotExpensive | app.py:90-99 | The fallback name does not contain "2.5-pro". |
| ModelSelector.FlashAt | app.py:77-82 | A name holding "flash" at some position, in any mix of upper and lower case, passes the flash test. |
| ModelSelector.UpperCaseFlashOneFive | app.py:76-78 | `models/Gemini-1.5-FLASH` passes tier 1: the flash test ignores case. |
| ModelSelector.FlashModelName | app.py:77 | Every `models/gemini-<version>-flash<suffix>` name passes the `flash` test and contains its version. |
| ModelSelector.FlashOneFiveBeatsTwoFivePro | app.py:76-78 | Given `models/gemini-1.5-flash-latest` and then `models/gemini-2.5-pro`, the flash model is chosen. |
| ModelSelector.VersionedProIsNotGeminiPro | app.py:86-88 | A `models/gemini-<version>-pro` name does not match the case-sensitive `gemini-pro` test. |
| ModelSelector.FourthTierPick | app.py:90-93 | When tiers 1-3 fail, a "2.5-pro" candidate is passed over for the next candidate. A model that cannot generate content is skipped. |
| ModelSelector.EmergencyPick | app.py:70-93 | Take a listing of a flash model without `generateContent`, then `models/gemini-2.5-pro`, then a Gemma model. The Gemma model is chosen. |
| ModelSelector.OnlyTwoFiveProYieldsDefault | app.py:90-95 | When the only candidate is `models/gemini-2.5-pro`, the default is chosen. |

## Left out

- The Streamlit page, CSS, sidebar, inputs, buttons, columns and HTML cards (app.py:7-46, 169-212): user interface with no logic in it.
- Reading the API key from the secrets store (app.py:38): an opaque input.
- `genai.configure`, `GenerativeModel`, `generate_content` and `genai.list_models` (app.py:71, 103-135): network calls into a foreign client.
  - The catalogue is an input, a `Listing`.
  - An exception raised at any point during listing is the `ListingFailed` case.
  - The listing is not modelled as a lazy iterator that fails part-way. A failure either way ends in the fallback.
- Building the prompt (app.py:111-132): an f-string template.
- `json.loads` and the rest of `get_ai_response` (app.py:101-143): a library parser and glue, including a catch-all that reports any exception and returns `None`. None of it is modelled.
- `st.error` and `st.sidebar.error` (app.py:98, 141-142): display side effects. The only returned value modelled is `get_working_model`'s, the fallback of app.py:99.
- `create_radar_chart` (app.py:145-167): a plotting wrapper.
- Strings.Lower: only ASCII capitals are lowered. Unicode case mapping sends no non-ASCII character to a string containing any of the letters f, l, a, s or h. So `'flash' in m.lower()` has the same answer either way. The model does not capture non-ASCII characters whose lower case is longer or otherwise different.
- Strings.IsSpace: a fixed table of the code points Python treats as whitespace. Python reads it from the Unicode database.
