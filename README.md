# SmartGuard EDU chatbot — a Dafny model of its text logic

SmartGuard EDU is a Flask web application for school pupils. It has a homework
answer checker, a rule-based chatbot and a browser client that shows the
conversation. This project models the parts of it that decide what the pupil
sees, and proves properties of that model:

- **Grading** (`app.py`):
  - `check_answer` compares the pupil's answer with the expected one, ignoring
    surrounding whitespace and letter case.
  - On a mismatch, it asks a completion service for an explanation, using a
    fixed prompt template. Then it appends the links that the static
    `resource_map` lists for the question's topic.
  - `allowed_file` accepts a profile picture by its last extension.
- **Chatbot** (`chatbot.py`): `get_bot_response` cleans the message
  (lower-case, trim, drop trailing `.`, `!` and `?`). Three known questions get
  fixed answers. Otherwise the first topic, in map order, whose name occurs in
  the message gets its links as HTML anchors. Anything else goes to the
  completion service.
- **Client** (`static/script.js`):
  - The linkifier turns every `http://` or `https://` URL into an anchor.
  - A chat line is rendered as `<strong>sender:</strong> text`.
  - The localized greeting falls back to English.
  - A message that is blank after `trim()` is not sent.

Modules:

- `Wrappers`: `Option`.
- `Text`: ASCII case folding, `strip`/`rstrip`/`trim` over named character
  classes, and substring search.
- `Grading`, `Chatbot` and `Client`: one per source file.

How the model represents the source:

- **Completion service.** In `CheckAnswer` it is a function parameter
  `complete`. In the chatbot it is the `Fallback` reply together with
  `FallbackReply`, whose `None` argument stands for a raised exception.
- **Imperative code.** The explanation-building loop of `check_answer`
  (app.py:183-186) is the method `AugmentExplanation`. That method is proved
  equal to the fold `Augmented`. `check_answer` itself is the method
  `CheckAnswer`, which calls it.
- **Pure code.** Everything else is pure in the source and is written as
  functions.

## Model

| member | source | states |
|---|---|---|
| `Text.Lower` | app.py:160 | `lower()` keeps the length and lower-cases every character in place |
| `Text.StripSpan` | app.py:160 | `strip()` keeps exactly one contiguous span: everything before and after it is whitespace, and both of its ends are not |
| `Text.StripUnique` | chatbot.py:29 | any span whose surroundings are in the class and whose ends are not is the stripped result |
| `Text.StripLeft` | chatbot.py:29 | `lstrip` never lengthens the text and leaves it beginning with a character outside the class |
| `Text.StripRight` | chatbot.py:29 | `rstrip(".!?")` never lengthens the text, keeps its first character and leaves it ending with a character outside the class |
| `Text.Strip` | chatbot.py:54 | a stripped text is no longer than the input and neither begins nor ends with a stripped character |
| `Text.StripIgnoresPadding` | app.py:160 | padding a text with whitespace on either side does not change what `strip()` returns |
| `Text.LowerStripCommute` | app.py:160 | for a class with no letters, stripping then lower-casing equals lower-casing then stripping |
| `Text.ContainsAppend` | chatbot.py:41 | an occurrence of a substring survives appending text |
| `Text.ContainsPrepend` | chatbot.py:41 | an occurrence of a substring survives prepending text |
| `Grading.Normalize` | app.py:160 | the normalised answer is no longer than the input, has no upper-case letter and no surrounding whitespace |
| `Grading.AnswersMatch` | app.py:160 | an answer typed exactly as the expected one is always accepted |
| `Grading.AnswersMatchLowerFirst` | app.py:160 | comparing after strip-then-lower accepts exactly the pairs that lower-then-strip would |
| `Grading.AnswersMatchSymmetric` | app.py:160 | the answer check does not depend on which side is the expected answer |
| `Grading.AnswersMatchIgnoresPadding` | app.py:160 | whitespace added around the pupil's answer never changes the verdict |
| `Grading.AnswersMatchIgnoresCase` | app.py:160 | answers that differ only in letter case get the same verdict |
| `Grading.PaddedCapitalisedAnswerAccepted` | app.py:160 | " Paris " is accepted for "paris" |
| `Grading.InteriorWhitespaceCounts` | app.py:160 | "new  york" is refused for "new york": whitespace inside the answer is not normalised |
| `Grading.ExplanationPrompt` | app.py:163-170 | the prompt opens with the fixed text and holds the three inputs verbatim: its length is theirs plus six quotes plus the fixed parts |
| `Grading.PromptQuotesItsInputs` | app.py:163-170 | the prompt quotes the pupil's answer, the question and the expected answer, each between single quotes (`Quoted`) |
| `Grading.TopicResources` | app.py:182 | `get(topic, [])`: a topic that is a key gets that key's list, any other topic gets no resources |
| `Grading.ResourceLines` | app.py:185-186 | the lines are empty exactly when there are no resources |
| `Grading.Augmented` | app.py:182-186 | the explanation is kept as a prefix, and it is returned unchanged exactly when the topic has no resources |
| `Grading.ResourceLinesAppend` | app.py:185-186 | resource lines are written one per resource, in list order |
| `Grading.ResourceLinesAt` | app.py:185-186 | the lines of a list are those before resource k, then the line of resource k, then those after it |
| `Grading.LineShowsUrl` | app.py:186 | each resource line (`ResourceLine`) shows the resource's URL |
| `Grading.AugmentedLayout` | app.py:182-186 | the exact text after a mismatch: the explanation, the resources header, and each resource line in order |
| `Grading.AugmentedShowsEachUrl` | app.py:182-186 | every URL listed for the topic appears in the explanation |
| `Grading.TopicLookupIsCaseSensitive` | app.py:94-103 | "capital of france" finds no resources, because the map key is "capital of France" |
| `Grading.TwoResourceLines` | app.py:185-186 | two resources give their two lines, concatenated in order |
| `Grading.KnownTopicListsResources` | app.py:94-103 | "capital of France" appends the header and the two listed Paris resources, in order |
| `Grading.AugmentExplanation` | app.py:182-186 | the loop that appends the header and one line per resource computes `Augmented` |
| `Grading.CheckAnswer` | app.py:153-188 | "correct" with the fixed praise exactly when the normalised answers are equal; otherwise "incorrect" with the completion of the prompt, augmented with the topic's resources |
| `Grading.LastDot` | app.py:333 | the index of the last '.', or none exactly when the name has no '.' |
| `Grading.AllowedFile` | app.py:331-333 | an accepted name has at least four characters and does not end with '.' |
| `Grading.AllowedFileByExtension` | app.py:331-333 | `base.ext` is accepted exactly when `ext` lower-cases to png, jpg, jpeg or gif |
| `Grading.NoDotRefused` | app.py:333 | a name without '.' is refused |
| `Grading.UpperCaseExtensionAccepted` | app.py:333 | "x.PNG" is accepted |
| `Grading.LastExtensionDecides` | app.py:333 | "a.png.exe" is refused: only the text after the last '.' counts |
| `Grading.NoExtensionRefused` | app.py:333 | "noext" is refused |
| `Chatbot.Clean` | chatbot.py:29 | the cleaned message is no longer than the message, does not start with whitespace and does not end with '.', '!' or '?' |
| `Chatbot.CleanSpan` | chatbot.py:29 | the cleaned message is a slice of the lower-cased message |
| `Chatbot.CleanShape` | chatbot.py:29 | the cleaned message occurs in the lower-cased message and has no upper-case letter |
| `Chatbot.CannedAnswer` | chatbot.py:31-37 | exactly the three known questions get a fixed answer, and that answer is never empty |
| `Chatbot.FirstTopicIn` | chatbot.py:40-41 | the index found is the first topic, in map order, whose name occurs in the message; none exactly when no topic name occurs |
| `Chatbot.Anchor` | chatbot.py:42 | the anchor built for a link shows the link |
| `Chatbot.Anchors` | chatbot.py:42 | one anchor per link, in order |
| `Chatbot.JoinSnoc` | chatbot.py:42 | `Join` of one more part adds the separator before it and none after |
| `Chatbot.JoinShowsParts` | chatbot.py:42 | every part occurs in the joined text |
| `Chatbot.TopicReply` | chatbot.py:43 | the reply opens with "Here are some great", the topic name and " resources you can check out:<br>" |
| `Chatbot.TopicReplyAppendsLink` | chatbot.py:42-43 | a topic's links are rendered in order, separated by "<br>", with no separator after the last |
| `Chatbot.TopicReplyShowsLinks` | chatbot.py:42-43 | the topic reply shows every link of the topic |
| `Chatbot.ContainsThrough` | chatbot.py:41 | what occurs in a part of a text occurs in the text |
| `Chatbot.FallbackReply` | chatbot.py:46-57 | a failed call gives the fixed apology; a completion is returned stripped, never longer and without surrounding whitespace |
| `Chatbot.FallbackReplySpan` | chatbot.py:54 | the reply to a completion is the completion text between runs of whitespace at its two ends |
| `Chatbot.FallbackReplyIgnoresPadding` | chatbot.py:54 | whitespace around the completion text does not reach the pupil |
| `Chatbot.BotResponse` | chatbot.py:28-43 | a known question gets its fixed answer; any other local answer is the reply of a topic whose name occurs in the cleaned message; the completion service is used only for unknown questions |
| `Chatbot.CannedAnswersComeFirst` | chatbot.py:31-37 | a known question gets its fixed answer, whatever topics exist |
| `Chatbot.TopicMatchIsFirstInMapOrder` | chatbot.py:39-43 | otherwise the first topic, in map order, named in the message decides the reply |
| `Chatbot.FallbackExactlyWhenUnmatched` | chatbot.py:28-46 | the completion service is used exactly when no known question and no topic name matches |
| `Chatbot.CleanOfSettled` | chatbot.py:29 | a lower-case, trimmed, unpunctuated message is its own cleaned form |
| `Chatbot.CleanOfSentence` | chatbot.py:29 | a capitalised sentence with one closing mark is cleaned to its lower-cased first letter, the rest, and no mark |
| `Chatbot.QuestionCleaned` | chatbot.py:29 | "What is 1 + 1?" cleans to "what is 1 + 1" |
| `Chatbot.KnownQuestionAnswered` | chatbot.py:32-33 | "What is 1 + 1?" is answered "The answer is 2" |
| `Chatbot.PhotosynthesisCleaned` | chatbot.py:29 | "Explain photosynthesis." cleans to "explain photosynthesis" |
| `Chatbot.PhotosynthesisAnswered` | chatbot.py:34-35 | "Explain photosynthesis." gets the fixed explanation of photosynthesis |
| `Chatbot.EinsteinCleaned` | chatbot.py:29 | "who was albert einstein!" cleans to "who was albert einstein" |
| `Chatbot.EinsteinAnswered` | chatbot.py:36-37 | "who was albert einstein!" gets the fixed answer about Einstein |
| `Chatbot.TopicsCleaned` | chatbot.py:29 | "math and science" is already clean |
| `Chatbot.MathNamedFirst` | chatbot.py:9-26 | "math" is the first topic named in "math and science" |
| `Chatbot.MathAnswersFirst` | chatbot.py:40-43 | a message cleaning to "math and science" gets the math links |
| `Chatbot.FirstTopicWins` | chatbot.py:40-43 | "math and science" names two topics, and math, first in the map, wins |
| `Client.NonSpaceRun` | static/script.js:23 | the greedy `[^\s]+`: the run has no whitespace and stops only at whitespace or the end |
| `Client.UrlMatch` | static/script.js:23 | a match is never longer than the text and, when there is one, is longer than the scheme "http://" |
| `Client.UrlMatchSpec` | static/script.js:23 | a match at the start of a text is a URL (`IsUrl`) followed by whitespace or the end; there is none exactly when no prefix is a URL |
| `Client.MatchIsUrl` | static/script.js:23 | what the regular expression matches is a URL |
| `Client.NoMatchNoUrl` | static/script.js:23 | without a match, no prefix of the text is a URL |
| `Client.Head` | static/script.js:22-25 | each scan step takes a non-empty prefix of the text |
| `Client.Tokenize` | static/script.js:22-25 | the scan makes at most one piece per character, and none exactly for the empty text |
| `Client.TokenizeFlatten` | static/script.js:22-25 | the pieces of the scan spell the text again: nothing outside the URLs is lost or reordered |
| `Client.TokenizeLinksMaximal` | static/script.js:22-25 | every replaced piece is a URL, and the piece after it is a whitespace character |
| `Client.PlainStartsNoUrl` | static/script.js:22-25 | the scan misses no URL: every character kept as plain text stands where no URL starts |
| `Client.NoUrlAtSpace` | static/script.js:23 | a whitespace character is never the start of a URL |
| `Client.RenderAppend` | static/script.js:22-25 | the replacement works piece by piece: `Render` of two lists of pieces is the two renderings concatenated |
| `Client.RenderLonger` | static/script.js:22-25 | writing pieces out never shortens the text they came from |
| `Client.Linkify` | static/script.js:22-25 | the linkified text is never shorter than the message |
| `Client.LinkifyWithoutUrls` | static/script.js:22-25 | text containing neither "http://" nor "https://" is returned unchanged |
| `Client.TokenizePlainChar` | static/script.js:23 | a character other than 'h' is kept as a plain piece |
| `Client.Plains` | static/script.js:22-25 | one plain piece per character, in order |
| `Client.RenderPlains` | static/script.js:22-25 | plain pieces render as the characters they hold |
| `Client.TokenizePlainPrefix` | static/script.js:22-25 | text without 'h' is scanned character by character before what follows |
| `Client.LinkifyPlainPrefix` | static/script.js:22-25 | text without 'h' is copied through ahead of the linkified rest |
| `Client.LinkifyPlainChar` | static/script.js:22-25 | a character other than 'h' is copied through |
| `Client.LinkifyUrl` | static/script.js:22-25 | a URL followed by whitespace or the end becomes one anchor, the one `AnchorFor` builds for the replace callback, with `target="_blank"` and `rel="noopener noreferrer"` |
| `Client.UrlMatchOfUrl` | static/script.js:23 | the match at a URL followed by whitespace or the end is the whole URL |
| `Client.NonSpaceRunAt` | static/script.js:23 | the greedy run stops exactly at the first whitespace |
| `Client.LinkifyAround` | static/script.js:22-25 | a URL between text without 'h' and whitespace or the end becomes one anchor, with the text before it untouched |
| `Client.TrailingDotJoinsUrl` | static/script.js:23 | a '.' right after a URL becomes part of the link |
| `Client.DotExtendsUrl` | static/script.js:23 | a URL followed by '.' is still a URL |
| `Client.MessageHtml` | static/script.js:27 | a chat line opens with the bold sender and a colon and is at least as long as the sender and the text together |
| `Client.PlainMessageHtml` | static/script.js:27 | a chat line without URLs is `<strong>sender:</strong> ` followed by the text as typed |
| `Client.Greeting` | static/script.js:43 | a table with an English entry always yields a greeting, and every greeting is one of the table's entries |
| `Client.GreetingChoice` | static/script.js:43 | over any table, the language's own entry wins when it is non-empty; otherwise the English entry, or undefined without one |
| `Client.GreetingOfListedLanguage` | static/script.js:9-15 | every language of the table gets its own greeting |
| `Client.GreetingOfOtherLanguage` | static/script.js:43 | any other code gets the English greeting |
| `Client.EveryLanguageGreeted` | app.py:30 | every code app.py lists in `LANGUAGES` is greeted; only "en" and "ht" get the English text |
| `Client.SubmittedMessage` | static/script.js:88-91 | a message that is sent is non-empty, no longer than the input, and neither begins nor ends with whitespace |
| `Client.SubmittedMessageSpec` | static/script.js:88-91 | a message is dropped exactly when the input is all whitespace; otherwise what is sent is the input without the whitespace runs at its two ends |

## Left out

- The Flask routes, sessions, login, registration, password hashing, TOTP
  two-factor codes, e-mail and the database (app.py outside lines 30, 94-103,
  151-188 and 330-333). They handle I/O and framework state, not the text
  logic.
- `secure_filename` and the upload handling around `allowed_file`. They are
  framework calls outside the text logic.
- The completion service itself (`openai.ChatCompletion.create`). It is a
  network call. Its answer is a parameter: `complete` in `CheckAnswer`,
  `Option<string>` in `FallbackReply`.
- `chat_with_language` (app.py:117-149). It only formats a prompt and forwards
  it to the completion service.
- DOM updates, scrolling, speech recognition and synthesis, `fetch`, and the
  service worker in the browser client. They are browser side effects.
- `Text.Lower`: case folding is ASCII `A`-`Z` only. Python's `lower()` also
  folds other scripts, which would need the Unicode tables.
- `Client.GreetingChoice`: JavaScript property lookup also finds keys
  inherited from `Object.prototype` (such as "constructor"). The model treats
  the table as a plain map.
- `Grading.CheckAnswer`: a missing `user_answer` or `correct_answer` makes the
  source fail on `None.strip()` (app.py:155-160). The model takes the four
  strings as given. A missing `question` is written into the prompt as
  `'None'`, which is the model called with "None". A missing `topic` finds no
  resources, which is the model called with a topic that is not a key.
- `Grading.CheckAnswer`: the completion call at app.py:172-180 is not wrapped
  in `try`, so a failure there is raised to the caller. The model has no
  failure path for it; only the chatbot (chatbot.py:46-57) catches the failure.
- `Grading.CheckAnswer`: the explanation of a wrong answer is the completion
  text plus the topic's resource lines, so it is empty when the completion is
  empty and the topic has no resources.
