/**
 * The rule-based reply of the school chatbot (`get_bot_response` in
 * chatbot.py): the message is normalised, three known questions get fixed
 * answers, a message naming a topic gets that topic's links, and anything
 * else is handed to the completion service.
 */
module Chatbot {
  import opened Text
  import opened Wrappers

  /** One item of the ordered `resource_map`: a topic name and its links. */
  datatype Topic = Topic(name: string, links: seq<string>)

  /** The chatbot's `resource_map`, in insertion order. */
  const BotResources: seq<Topic> := [
    Topic("math", ["https://www.khanacademy.org/math", "https://www.youtube.com/watch?v=Z0kGAz6HYM8"]),
    Topic("science", ["https://www.sciencekids.co.nz/", "https://www.youtube.com/watch?v=VbM0J3j4bXg"]),
    Topic("history", ["https://www.historyforkids.net/", "https://www.youtube.com/watch?v=Y3f9KX1F7mA"]),
    Topic("literature", ["https://www.litcharts.com/", "https://www.youtube.com/watch?v=Y3f9KX1F7mA"])
  ]

  /** A reply decided locally, or the hand-over to the completion service. */
  datatype Reply = Answer(text: string) | Fallback

  const FetchFailed: string := "Sorry, I couldn't fetch a response at the moment."

  /** `message.lower().strip().rstrip(".!?")` */
  function Clean(message: string): (r: string)
    ensures |r| <= |message|
    ensures r != [] ==> !InClass(r[0], PySpace) && !InClass(r[|r| - 1], SentenceEnd)
  {
    StripRight(Strip(Lower(message), PySpace), SentenceEnd)
  }

  /**
   * A cleaned message is an infix of the lower-cased message, so it has no
   * upper-case letter.
   */
  lemma {:induction false} CleanShape(message: string)
    ensures var r := Clean(message);
      Contains(Lower(message), r) && forall k :: 0 <= k < |r| ==> !IsUpper(r[k])
  {
    var low, r := Lower(message), Clean(message);
    var i := CleanSpan(message);
    ContainsAt(low, r, i);
    forall k | 0 <= k < |r| ensures !IsUpper(r[k]) {
      assert r[k] == low[i + k];
    }
  }

  /** Where the cleaned message sits in the lower-cased one. */
  lemma CleanSpan(message: string) returns (i: nat)
    ensures i + |Clean(message)| <= |Lower(message)|
    ensures Clean(message) == Lower(message)[i..i + |Clean(message)|]
  {
    i := StripTwiceSpan(Lower(message), PySpace, SentenceEnd);
  }

  /** The three known questions and their fixed answers, tried in this order. */
  function CannedAnswer(clean: string): (r: Option<string>)
    ensures r.Some? <==>
      clean == "what is 1 + 1" || clean == "explain photosynthesis" || clean == "who was albert einstein"
    ensures r.Some? ==> r.value != []
  {
    if clean == "what is 1 + 1" then Some("The answer is 2")
    else if clean == "explain photosynthesis" then
      Some("Photosynthesis is the process by which plants make their own food using sunlight.")
    else if clean == "who was albert einstein" then
      Some("Albert Einstein was a famous physicist known for the theory of relativity.")
    else None
  }

  /** The first topic, in map order, whose name occurs in the cleaned message. */
  function FirstTopicIn(topics: seq<Topic>, clean: string): (r: Option<nat>)
    ensures r.Some? ==>
      r.value < |topics| && Contains(clean, topics[r.value].name) &&
      forall j :: 0 <= j < r.value ==> !Contains(clean, topics[j].name)
    ensures r.None? ==> forall j :: 0 <= j < |topics| ==> !Contains(clean, topics[j].name)
  {
    if topics == [] then None
    else if Contains(clean, topics[0].name) then Some(0)
    else
      match FirstTopicIn(topics[1..], clean)
      case None => None
      case Some(i) => Some(i + 1)
  }

  /** `<a href="L" target="_blank">L</a>` */
  function Anchor(link: string): (r: string)
    ensures Contains(r, link)
  {
    var tail := "\" target=\"_blank\">" + link + "</a>";
    ContainsInfix("<a href=\"", link, tail);
    assert "<a href=\"" + link + tail == "<a href=\"" + link + "\" target=\"_blank\">" + link + "</a>";
    "<a href=\"" + link + "\" target=\"_blank\">" + link + "</a>"
  }

  function Anchors(links: seq<string>): (r: seq<string>)
    ensures |r| == |links|
    ensures forall k :: 0 <= k < |links| ==> r[k] == Anchor(links[k])
  {
    if links == [] then [] else [Anchor(links[0])] + Anchors(links[1..])
  }

  /** Python's `sep.join(parts)`. */
  function Join(sep: string, parts: seq<string>): string
    decreases |parts|
  {
    if parts == [] then ""
    else if |parts| == 1 then parts[0]
    else parts[0] + sep + Join(sep, parts[1..])
  }

  /** Joining one more part adds the separator before it and none after it. */
  lemma {:induction false} JoinSnoc(sep: string, parts: seq<string>, last: string)
    requires parts != []
    ensures Join(sep, parts + [last]) == Join(sep, parts) + sep + last
    decreases |parts|
  {
    if |parts| == 1 {
      assert (parts + [last])[1..] == [last];
    } else {
      assert (parts + [last])[1..] == parts[1..] + [last];
      JoinSnoc(sep, parts[1..], last);
      var h, j := parts[0], Join(sep, parts[1..]);
      assert h + sep + (j + sep + last) == h + sep + j + sep + last;
    }
  }

  /** Every part shows in the joined text. */
  lemma {:induction false} JoinShowsParts(sep: string, parts: seq<string>, k: nat)
    requires k < |parts|
    ensures Contains(Join(sep, parts), parts[k])
    decreases |parts|
  {
    if |parts| == 1 {
      ContainsInfix([], parts[0], []);
      assert [] + parts[0] + [] == parts[0];
    } else if k == 0 {
      ContainsInfix([], parts[0], sep + Join(sep, parts[1..]));
      assert [] + parts[0] + (sep + Join(sep, parts[1..])) == parts[0] + sep + Join(sep, parts[1..]);
    } else {
      JoinShowsParts(sep, parts[1..], k - 1);
      ContainsPrepend(parts[0] + sep, Join(sep, parts[1..]), parts[k]);
    }
  }

  const TopicIntro: string := " resources you can check out:<br>"

  /** `"Here are some great {topic} resources you can check out:<br>" + links joined by "<br>"` */
  function TopicReply(topic: Topic): (r: string)
    ensures StartsWith(r, "Here are some great " + topic.name + TopicIntro)
  {
    "Here are some great " + topic.name + TopicIntro + Join("<br>", Anchors(topic.links))
  }

  /** Links are rendered in list order, separated by "<br>", with no separator after the last. */
  lemma {:induction false} TopicReplyAppendsLink(name: string, links: seq<string>, link: string)
    requires links != []
    ensures TopicReply(Topic(name, links + [link])) == TopicReply(Topic(name, links)) + "<br>" + Anchor(link)
  {
    assert Anchors(links + [link]) == Anchors(links) + [Anchor(link)];
    JoinSnoc("<br>", Anchors(links), Anchor(link));
    var head, j := "Here are some great " + name + TopicIntro, Join("<br>", Anchors(links));
    assert head + (j + "<br>" + Anchor(link)) == head + j + "<br>" + Anchor(link);
  }

  /** A topic reply shows every one of the topic's links. */
  lemma {:induction false} TopicReplyShowsLinks(topic: Topic, k: nat)
    requires k < |topic.links|
    ensures Contains(TopicReply(topic), topic.links[k])
  {
    var anchors := Anchors(topic.links);
    JoinShowsParts("<br>", anchors, k);
    var link := topic.links[k];
    ContainsThrough(Join("<br>", anchors), Anchor(link), link);
    ContainsPrepend("Here are some great " + topic.name + TopicIntro, Join("<br>", anchors), link);
  }

  /** Occurrence is transitive: what occurs in a part of `s` occurs in `s`. */
  lemma {:induction false} ContainsThrough(s: string, part: string, p: string)
    requires Contains(s, part) && Contains(part, p)
    ensures Contains(s, p)
    decreases |s|
  {
    if StartsWith(s, part) {
      assert s == part + s[|part|..];
      ContainsAppend(part, p, s[|part|..]);
    } else {
      ContainsThrough(s[1..], part, p);
      assert s == [s[0]] + s[1..];
      ContainsPrepend([s[0]], s[1..], p);
    }
  }

  /** `get_bot_response` up to the call of the completion service. */
  function BotResponse(topics: seq<Topic>, message: string): (r: Reply)
    ensures CannedAnswer(Clean(message)).Some? ==> r == Answer(CannedAnswer(Clean(message)).value)
    ensures r.Fallback? ==> CannedAnswer(Clean(message)).None?
    ensures r.Answer? && CannedAnswer(Clean(message)).None? ==>
      exists i :: 0 <= i < |topics| && Contains(Clean(message), topics[i].name) && r.text == TopicReply(topics[i])
  {
    var clean := Clean(message);
    match CannedAnswer(clean)
    case Some(answer) => Answer(answer)
    case None =>
      match FirstTopicIn(topics, clean)
      case Some(i) => Answer(TopicReply(topics[i]))
      case None => Fallback
  }

  /** The end of `get_bot_response`: the completion text, stripped, or the apology when the call failed. */
  function FallbackReply(completion: Option<string>): (r: string)
    ensures completion.None? ==> r == FetchFailed
    ensures completion.Some? ==> |r| <= |completion.value|
    ensures completion.Some? && r != [] ==> !InClass(r[0], PySpace) && !InClass(r[|r| - 1], PySpace)
  {
    match completion
    case None => FetchFailed
    case Some(text) =>
      Strip(text, PySpace)
  }

  /**
   * The reply to a completion is the completion text from its first to its
   * last non-whitespace character: only whitespace is cut, and only at the ends.
   */
  lemma FallbackReplySpan(text: string)
    ensures exists i, j ::
      0 <= i <= j <= |text| && FallbackReply(Some(text)) == text[i..j] &&
      (forall k :: 0 <= k < i ==> InClass(text[k], PySpace)) &&
      (forall k :: j <= k < |text| ==> InClass(text[k], PySpace))
  {
    var i, j := StripSpan(text, PySpace);
  }

  /** Whitespace around the completion text never reaches the user. */
  lemma FallbackReplyIgnoresPadding(pre: string, text: string, post: string)
    requires forall k :: 0 <= k < |pre| ==> InClass(pre[k], PySpace)
    requires forall k :: 0 <= k < |post| ==> InClass(post[k], PySpace)
    ensures FallbackReply(Some(pre + text + post)) == FallbackReply(Some(text))
  {
    StripIgnoresPadding(pre, text, post, PySpace);
  }

  /**
   * A known question is answered from the fixed list, whatever topics exist.
   * This unfolds the first case of `BotResponse`'s definition.
   */
  lemma CannedAnswersComeFirst(topics: seq<Topic>, message: string)
    requires CannedAnswer(Clean(message)).Some?
    ensures BotResponse(topics, message) == Answer(CannedAnswer(Clean(message)).value)
  {
  }

  /**
   * Otherwise the reply lists the links of the first topic, in map order,
   * whose name occurs in the cleaned message.
   */
  lemma TopicMatchIsFirstInMapOrder(topics: seq<Topic>, message: string, i: nat)
    requires CannedAnswer(Clean(message)).None?
    requires i < |topics| && Contains(Clean(message), topics[i].name)
    requires forall j :: 0 <= j < i ==> !Contains(Clean(message), topics[j].name)
    ensures BotResponse(topics, message) == Answer(TopicReply(topics[i]))
  {
  }

  /** The completion service is asked exactly when no known question and no topic name matches. */
  lemma FallbackExactlyWhenUnmatched(topics: seq<Topic>, message: string)
    ensures BotResponse(topics, message) == Fallback <==>
      CannedAnswer(Clean(message)).None? &&
      forall j :: 0 <= j < |topics| ==> !Contains(Clean(message), topics[j].name)
  {
  }

  /** A message that is already lower-case, trimmed and unpunctuated is its own cleaned form. */
  lemma {:induction false} CleanOfSettled(message: string)
    requires forall k :: 0 <= k < |message| ==> !IsUpper(message[k])
    requires message != [] && !InClass(message[0], PySpace)
    requires !InClass(message[|message| - 1], PySpace) && !InClass(message[|message| - 1], SentenceEnd)
    ensures Clean(message) == message
  {
    StripUnique(message, PySpace, 0, |message|);
    StripRightAt(message, SentenceEnd, |message|);
    LowerWithoutUpper(message);
  }

  /**
   * A sentence with a capital first letter and one closing mark is cleaned to
   * the lower-cased first letter followed by the rest, without the mark.
   */
  lemma {:induction false} CleanOfSentence(message: string, first: char, rest: string, mark: char)
    requires message == [first] + rest + [mark]
    requires !InClass(LowerChar(first), PySpace)
    requires rest != [] && !InClass(rest[|rest| - 1], PySpace) && !InClass(rest[|rest| - 1], SentenceEnd)
    requires forall k :: 0 <= k < |rest| ==> !IsUpper(rest[k])
    requires InClass(mark, SentenceEnd)
    ensures Clean(message) == [LowerChar(first)] + rest
  {
    var low := [LowerChar(first)] + rest + [mark];
    var n := |rest| + 1;
    StripUnique(low, PySpace, 0, n + 1);
    StripRightAt(low, SentenceEnd, n);
    assert low[..n] == [LowerChar(first)] + rest;
    LowerAppend([first] + rest, [mark]);
    LowerAppend([first], rest);
    LowerWithoutUpper(rest);
    assert Lower(message) == low;
    assert Strip(low, PySpace) == low;
    assert StripRight(low, SentenceEnd) == [LowerChar(first)] + rest;
  }

  /** "What is 1 + 1?" gets "The answer is 2": case and the question mark do not matter. */
  lemma KnownQuestionAnswered(message: string)
    requires message == "What is 1 + 1?"
    ensures BotResponse(BotResources, message) == Answer("The answer is 2")
  {
    QuestionCleaned(message);
  }

  /** "What is 1 + 1?" cleans to the first known question. */
  lemma QuestionCleaned(message: string)
    requires message == "What is 1 + 1?"
    ensures Clean(message) == "what is 1 + 1"
  {
    CleanOfSentence(message, 'W', "hat is 1 + 1", '?');
  }

  /** "Explain photosynthesis." gets the fixed explanation of photosynthesis. */
  lemma PhotosynthesisAnswered(message: string)
    requires message == "Explain photosynthesis."
    ensures BotResponse(BotResources, message) ==
      Answer("Photosynthesis is the process by which plants make their own food using sunlight.")
  {
    PhotosynthesisCleaned(message);
  }

  /** "Explain photosynthesis." cleans to the second known question. */
  lemma PhotosynthesisCleaned(message: string)
    requires message == "Explain photosynthesis."
    ensures Clean(message) == "explain photosynthesis"
  {
    var rest := "xplain photosynthesis";
    assert LowerChar('E') == 'e';
    assert ['e'] + rest == "explain photosynthesis";
    assert message == ['E'] + rest + ['.'];
    CleanOfSentence(message, 'E', rest, '.');
  }

  /** "who was albert einstein!" gets the fixed answer about Einstein. */
  lemma EinsteinAnswered(message: string)
    requires message == "who was albert einstein!"
    ensures BotResponse(BotResources, message) ==
      Answer("Albert Einstein was a famous physicist known for the theory of relativity.")
  {
    EinsteinCleaned(message);
  }

  /** "who was albert einstein!" cleans to the third known question. */
  lemma EinsteinCleaned(message: string)
    requires message == "who was albert einstein!"
    ensures Clean(message) == "who was albert einstein"
  {
    CleanOfSentence(message, 'w', "ho was albert einstein", '!');
  }

  /** "math and science" names two topics; math comes first in the map and wins. */
  lemma FirstTopicWins(message: string)
    requires message == "math and science"
    ensures BotResponse(BotResources, message) == Answer(TopicReply(BotResources[0]))
  {
    TopicsCleaned(message);
    MathAnswersFirst(message);
  }

  /** Any message that cleans to "math and science" gets the math links. */
  lemma MathAnswersFirst(message: string)
    requires Clean(message) == "math and science"
    ensures BotResponse(BotResources, message) == Answer(TopicReply(BotResources[0]))
  {
    MathNamedFirst();
  }

  /** "math and science" is already clean. */
  lemma TopicsCleaned(message: string)
    requires message == "math and science"
    ensures Clean(message) == "math and science"
  {
    CleanOfSettled(message);
  }

  /** "math" is the first topic of the map named in "math and science". */
  lemma MathNamedFirst()
    ensures FirstTopicIn(BotResources, "math and science") == Some(0)
  {
    assert StartsWith("math and science", "math");
  }
}
