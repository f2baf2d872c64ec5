/**
 * The answer-checking endpoint of the web application (`check_answer` in
 * app.py): a submitted answer is compared with the expected one after
 * stripping and lower-casing both; a wrong answer gets an explanation from
 * the completion service, followed by the curated resources filed under the
 * question's topic. The upload-filename filter `allowed_file` lives here too.
 */
module Grading {
  import opened Text
  import opened Wrappers

  /** One curated learning resource: `{"title": ..., "url": ...}`. */
  datatype Resource = Resource(title: string, url: string)

  /** Topic name to its resources, in the order they are listed. */
  type ResourceMap = map<string, seq<Resource>>

  /** The application's static `resource_map`. */
  const AppResources: ResourceMap := map[
    "capital of France" := [
      Resource("Geography of France", "https://www.youtube.com/watch?v=example1"),
      Resource("France Capital - Britannica", "https://www.britannica.com/place/Paris")
    ],
    "basic arithmetic" := [
      Resource("Addition Basics - Khan Academy", "https://www.khanacademy.org/math/arithmetic"),
      Resource("2 + 2 Explained", "https://www.youtube.com/watch?v=example2")
    ]
  ]

  datatype Verdict = Correct | Incorrect {
    /** The value of the `result` field in the JSON reply. */
    function Label(): string {
      match this
      case Correct => "correct"
      case Incorrect => "incorrect"
    }
  }

  /** The JSON reply `{"result": ..., "explanation": ...}`. */
  datatype Grade = Grade(result: Verdict, explanation: string)

  const CorrectExplanation: string := "\U{2705} That's correct! Good job."

  const ResourcesHeader: string := "\n\n\U{1F4DA} Additional Resources:"

  /** `s.strip().lower()`: the form in which two answers are compared. */
  function Normalize(s: string): (r: string)
    ensures |r| <= |s|
    ensures forall k :: 0 <= k < |r| ==> !IsUpper(r[k])
    ensures r == [] || (!InClass(r[0], PySpace) && !InClass(r[|r| - 1], PySpace))
  {
    var t := Strip(s, PySpace);
    PySpaceHasNoLetters();
    LowerKeepsMembership(t, PySpace);
    Lower(t)
  }

  /** The comparison on which `check_answer` decides. */
  predicate AnswersMatch(user: string, correct: string)
    ensures user == correct ==> AnswersMatch(user, correct)
  {
    Normalize(user) == Normalize(correct)
  }

  lemma PySpaceHasNoLetters()
    ensures NoLetters(PySpace)
  {
  }

  /**
   * Stripping first and lower-casing first give the same verdict: an answer
   * is accepted exactly when `strip(lower(user)) == strip(lower(correct))`.
   */
  lemma {:induction false} AnswersMatchLowerFirst(user: string, correct: string)
    ensures AnswersMatch(user, correct) <==>
      Strip(Lower(user), PySpace) == Strip(Lower(correct), PySpace)
  {
    PySpaceHasNoLetters();
    LowerStripCommute(user, PySpace);
    LowerStripCommute(correct, PySpace);
  }

  lemma AnswersMatchSymmetric(user: string, correct: string)
    ensures AnswersMatch(user, correct) <==> AnswersMatch(correct, user)
  {
  }

  /** Whitespace around an answer never changes the verdict. */
  lemma {:induction false} AnswersMatchIgnoresPadding(pre: string, user: string, post: string, correct: string)
    requires forall k :: 0 <= k < |pre| ==> InClass(pre[k], PySpace)
    requires forall k :: 0 <= k < |post| ==> InClass(post[k], PySpace)
    ensures AnswersMatch(pre + user + post, correct) <==> AnswersMatch(user, correct)
  {
    StripIgnoresPadding(pre, user, post, PySpace);
  }

  /** Answers that differ only in letter case get the same verdict. */
  lemma {:induction false} AnswersMatchIgnoresCase(user: string, other: string, correct: string)
    requires Lower(user) == Lower(other)
    ensures AnswersMatch(user, correct) <==> AnswersMatch(other, correct)
  {
    PySpaceHasNoLetters();
    LowerStripCommute(user, PySpace);
    LowerStripCommute(other, PySpace);
  }

  /** " Paris " is accepted for "paris". */
  lemma {:induction false} PaddedCapitalisedAnswerAccepted(user: string, correct: string)
    requires user == " Paris " && correct == "paris"
    ensures AnswersMatch(user, correct)
  {
    StripUnique(user, PySpace, 1, 6);
    StripUnique(correct, PySpace, 0, 5);
    assert user[1..6] == "Paris";
    assert Lower("Paris") == "paris";
    LowerWithoutUpper(correct);
  }

  /** `strip` only trims the ends: doubled interior whitespace is a different answer. */
  lemma {:induction false} InteriorWhitespaceCounts()
    ensures !AnswersMatch("new  york", "new york")
  {
    StripUnique("new  york", PySpace, 0, 9);
    StripUnique("new york", PySpace, 0, 8);
  }

  /** `'text'`: how the prompt quotes the answers and the question. */
  function Quoted(s: string): string { "'" + s + "'" }

  const PromptOpening: string := "\n    The student answered: "
  const PromptQuestion: string := " to the question: "
  const PromptCorrect: string := ".\n    The correct answer is "
  const PromptRequest: string := ".\n" +
    "\n" +
    "    Explain why the student's answer is incorrect and provide a detailed explanation of the correct answer.\n" +
    "    Then, recommend one or two helpful online resources (such as YouTube videos or articles) for further learning.\n" +
    "    Provide clickable links.\n" +
    "    "

  /** The question put to the completion service after a wrong answer (the f-string of `check_answer`). */
  function ExplanationPrompt(user: string, question: string, correct: string): (r: string)
    ensures |r| == |user| + |question| + |correct| + 6 +
      |PromptOpening| + |PromptQuestion| + |PromptCorrect| + |PromptRequest|
    ensures StartsWith(r, PromptOpening)
  {
    PromptOpening + Quoted(user) + PromptQuestion + Quoted(question) +
    PromptCorrect + Quoted(correct) + PromptRequest
  }

  /** Each of three quoted values shows in a text that interleaves them with fixed parts. */
  lemma {:induction false} InterleavedQuotes(a: string, x: string, b: string, y: string, c: string, z: string, d: string)
    ensures Contains(a + Quoted(x) + b + Quoted(y) + c + Quoted(z) + d, Quoted(x))
    ensures Contains(a + Quoted(x) + b + Quoted(y) + c + Quoted(z) + d, Quoted(y))
    ensures Contains(a + Quoted(x) + b + Quoted(y) + c + Quoted(z) + d, Quoted(z))
  {
    var qx, qy, qz := Quoted(x), Quoted(y), Quoted(z);
    ContainsInfix(a, qx, []);
    assert a + qx + [] == a + qx;
    ContainsAppend(a + qx, qx, b + qy + c + qz + d);
    assert a + qx + b + qy + c + qz + d == (a + qx) + (b + qy + c + qz + d);
    ContainsInfix(a + qx + b, qy, c + qz + d);
    assert a + qx + b + qy + c + qz + d == (a + qx + b) + qy + (c + qz + d);
    ContainsInfix(a + qx + b + qy + c, qz, d);
  }

  /** The prompt quotes the student's answer, the question and the expected answer. */
  lemma PromptQuotesItsInputs(user: string, question: string, correct: string)
    ensures Contains(ExplanationPrompt(user, question, correct), Quoted(user))
    ensures Contains(ExplanationPrompt(user, question, correct), Quoted(question))
    ensures Contains(ExplanationPrompt(user, question, correct), Quoted(correct))
  {
    InterleavedQuotes(PromptOpening, user, PromptQuestion, question, PromptCorrect, correct, PromptRequest);
  }

  /** One appended line: `\n- [title](url)`. */
  function ResourceLine(r: Resource): string {
    "\n- [" + r.title + "](" + r.url + ")"
  }

  /** The lines appended for `rs`, one per entry, in list order. */
  function ResourceLines(rs: seq<Resource>): (r: string)
    ensures rs == [] <==> r == []
  {
    if rs == [] then "" else ResourceLines(rs[..|rs| - 1]) + ResourceLine(rs[|rs| - 1])
  }

  /** `resource_map.get(topic, [])`: exact, case-sensitive key lookup. */
  function TopicResources(topic: string, resources: ResourceMap): (r: seq<Resource>)
    ensures topic in resources ==> r == resources[topic]
    ensures topic !in resources ==> r == []
  {
    if topic in resources then resources[topic] else []
  }

  /**
   * The explanation returned for a wrong answer: the completion text,
   * followed, when the topic has resources, by the header and one line per
   * resource.
   */
  function Augmented(explanation: string, topic: string, resources: ResourceMap): (r: string)
    ensures StartsWith(r, explanation)
    ensures TopicResources(topic, resources) == [] <==> r == explanation
  {
    var extra := TopicResources(topic, resources);
    if extra == [] then explanation else explanation + ResourcesHeader + ResourceLines(extra)
  }

  /** Lines for two lists are the lines of the first followed by those of the second. */
  lemma {:induction false} ResourceLinesAppend(a: seq<Resource>, b: seq<Resource>)
    ensures ResourceLines(a + b) == ResourceLines(a) + ResourceLines(b)
    decreases |b|
  {
    if b != [] {
      var b' := b[..|b| - 1];
      assert (a + b)[..|a + b| - 1] == a + b';
      ResourceLinesAppend(a, b');
    } else {
      assert a + b == a;
    }
  }

  /** Entry `k` contributes exactly its own line, after those of entries `0..k` and before the rest. */
  lemma {:induction false} ResourceLinesAt(rs: seq<Resource>, k: nat)
    requires k < |rs|
    ensures ResourceLines(rs) == ResourceLines(rs[..k]) + ResourceLine(rs[k]) + ResourceLines(rs[k + 1..])
  {
    assert rs == rs[..k] + [rs[k]] + rs[k + 1..];
    ResourceLinesAppend(rs[..k] + [rs[k]], rs[k + 1..]);
    ResourceLinesAppend(rs[..k], [rs[k]]);
    assert ResourceLines([rs[k]]) == ResourceLine(rs[k]) by {
      assert [rs[k]][..0] == [];
    }
  }

  /** A resource's line shows its url. */
  lemma LineShowsUrl(r: Resource)
    ensures Contains(ResourceLine(r), r.url)
  {
    ContainsInfix("\n- [" + r.title + "](", r.url, ")");
  }

  /**
   * For a topic with resources, the reply is the explanation, the header and
   * the resources' lines, entry `k`'s line after those of the entries before
   * it and before the rest.
   */
  lemma {:induction false} AugmentedLayout(explanation: string, topic: string, resources: ResourceMap, k: nat)
    requires topic in resources && k < |resources[topic]|
    ensures var rs := resources[topic];
      Augmented(explanation, topic, resources) ==
        explanation + ResourcesHeader + (ResourceLines(rs[..k]) + ResourceLine(rs[k]) + ResourceLines(rs[k + 1..]))
  {
    ResourceLinesAt(resources[topic], k);
  }

  /** Every resource's url appears in the reply for its topic. */
  lemma {:induction false} AugmentedShowsEachUrl(explanation: string, topic: string, resources: ResourceMap, k: nat)
    requires topic in resources && k < |resources[topic]|
    ensures Contains(Augmented(explanation, topic, resources), resources[topic][k].url)
  {
    var rs := resources[topic];
    AugmentedLayout(explanation, topic, resources, k);
    var head := explanation + ResourcesHeader;
    var before, line, after := ResourceLines(rs[..k]), ResourceLine(rs[k]), ResourceLines(rs[k + 1..]);
    LineShowsUrl(rs[k]);
    ContainsAppend(line, rs[k].url, after);
    ContainsPrepend(before, line + after, rs[k].url);
    assert before + (line + after) == before + line + after;
    ContainsPrepend(head, before + line + after, rs[k].url);
  }

  /** Topic lookup is exact and case-sensitive: "capital of france" gets no resources. */
  lemma TopicLookupIsCaseSensitive(explanation: string)
    ensures Augmented(explanation, "capital of france", AppResources) == explanation
  {
    assert "capital of france"[11] != "capital of France"[11];
    assert |"capital of france"| != |"basic arithmetic"|;
  }

  lemma TwoResourceLines(a: Resource, b: Resource)
    ensures ResourceLines([a, b]) == ResourceLine(a) + ResourceLine(b)
  {
    assert [a, b][..1] == [a];
    assert [a][..0] == [];
    assert ResourceLines([a]) == ResourceLine(a) by {
      assert ResourceLines([a]) == "" + ResourceLine(a);
    }
  }

  /** The reply for "capital of France" lists its two resources in map order. */
  lemma KnownTopicListsResources(explanation: string)
    ensures Augmented(explanation, "capital of France", AppResources) ==
      explanation + ResourcesHeader +
      ResourceLine(Resource("Geography of France", "https://www.youtube.com/watch?v=example1")) +
      ResourceLine(Resource("France Capital - Britannica", "https://www.britannica.com/place/Paris"))
  {
    var rs := AppResources["capital of France"];
    assert |"capital of France"| != |"basic arithmetic"|;
    assert rs[0] == Resource("Geography of France", "https://www.youtube.com/watch?v=example1");
    assert rs[1] == Resource("France Capital - Britannica", "https://www.britannica.com/place/Paris");
    assert TopicResources("capital of France", AppResources) == rs;
    TwoResourceLines(rs[0], rs[1]);
    assert rs == [rs[0], rs[1]];
    var head, l0, l1 := explanation + ResourcesHeader, ResourceLine(rs[0]), ResourceLine(rs[1]);
    assert head + (l0 + l1) == head + l0 + l1;
  }

  /** The augmentation loop of `check_answer`: appends the header and one line per resource. */
  method AugmentExplanation(explanation: string, topic: string, resources: ResourceMap) returns (r: string)
    ensures r == Augmented(explanation, topic, resources)
  {
    var extra := TopicResources(topic, resources);
    r := explanation;
    if extra != [] {
      r := r + ResourcesHeader;
      ghost var head := r;
      for i := 0 to |extra|
        invariant r == head + ResourceLines(extra[..i])
      {
        ghost var done := ResourceLines(extra[..i]);
        var line := ResourceLine(extra[i]);
        assert extra[..i + 1][..i] == extra[..i];
        assert ResourceLines(extra[..i + 1]) == done + line;
        assert head + (done + line) == head + done + line;
        r := r + line;
      }
      assert extra[..|extra|] == extra;
    }
  }

  /**
   * `check_answer`: a matching answer gets the fixed congratulation; any
   * other answer gets the completion service's reply to the explanation
   * prompt, augmented with the topic's resources. `complete` stands for the
   * completion service.
   */
  method CheckAnswer(user: string, correct: string, question: string, topic: string,
                     resources: ResourceMap, complete: string -> string) returns (g: Grade)
    ensures g.result == Correct <==> AnswersMatch(user, correct)
    ensures g.result == Correct ==> g.explanation == CorrectExplanation
    ensures g.result == Incorrect ==>
      g.explanation == Augmented(complete(ExplanationPrompt(user, question, correct)), topic, resources)
  {
    if Normalize(user) == Normalize(correct) {
      return Grade(Correct, CorrectExplanation);
    }
    var explanation := complete(ExplanationPrompt(user, question, correct));
    explanation := AugmentExplanation(explanation, topic, resources);
    g := Grade(Incorrect, explanation);
  }

  /** `ALLOWED_EXTENSIONS`: the image types accepted as profile pictures. */
  const AllowedExtensions: set<string> := {"png", "jpg", "jpeg", "gif"}

  /** Index of the last '.' in `s`, if any: where `s.rsplit('.', 1)` splits. */
  function LastDot(s: string): (r: Option<nat>)
    ensures r.None? <==> forall k :: 0 <= k < |s| ==> s[k] != '.'
    ensures r.Some? ==> r.value < |s| && s[r.value] == '.' && forall k :: r.value < k < |s| ==> s[k] != '.'
  {
    if s == [] then None
    else if s[|s| - 1] == '.' then Some(|s| - 1)
    else LastDot(s[..|s| - 1])
  }

  /** `allowed_file`: the name has a '.', and the text after the last '.' is an allowed extension in any case. */
  function AllowedFile(filename: string): (ok: bool)
    ensures ok ==> 4 <= |filename| && filename[|filename| - 1] != '.'
  {
    match LastDot(filename)
    case None => false
    case Some(i) => Lower(filename[i + 1..]) in AllowedExtensions
  }

  /**
   * A name is accepted exactly when it is some base name, a '.', and an
   * extension without '.' that lower-cases to an allowed one.
   */
  lemma {:induction false} AllowedFileByExtension(base: string, ext: string)
    requires forall k :: 0 <= k < |ext| ==> ext[k] != '.'
    ensures AllowedFile(base + "." + ext) <==> Lower(ext) in AllowedExtensions
  {
    var f := base + "." + ext;
    var n := |base|;
    assert f[n] == '.';
    forall k | n < k < |f| ensures f[k] != '.' {
      assert f[k] == ext[k - n - 1];
    }
    var i := LastDot(f).value;
    assert f[i] == '.';
    assert i == n;
    assert f[i + 1..] == ext;
  }

  /** A name without any '.' is refused. */
  lemma NoDotRefused(filename: string)
    requires forall k :: 0 <= k < |filename| ==> filename[k] != '.'
    ensures !AllowedFile(filename)
  {
  }

  /** An upper-case allowed extension is accepted: "x.PNG". */
  lemma UpperCaseExtensionAccepted()
    ensures AllowedFile("x.PNG")
  {
    AllowedFileByExtension("x", "PNG");
    assert "x.PNG" == "x" + "." + "PNG";
    assert Lower("PNG") == "png";
  }

  /** Only the last extension counts: "a.png.exe" is refused. */
  lemma LastExtensionDecides()
    ensures !AllowedFile("a.png.exe")
  {
    AllowedFileByExtension("a.png", "exe");
    assert "a.png.exe" == "a.png" + "." + "exe";
    assert Lower("exe") == "exe";
    assert "exe" !in AllowedExtensions;
  }


  /** A name without an extension is refused: "noext". */
  lemma NoExtensionRefused(filename: string)
    requires filename == "noext"
    ensures !AllowedFile(filename)
  {
    NoDotRefused(filename);
  }
}
