/**
 * The pure text handling of the browser client (static/script.js): the
 * linkifier that turns URLs in a chat message into anchors, the rendered
 * message line, the localized greeting lookup and the guard that drops a
 * message that is blank after trimming.
 */
module Client {
  import opened Text
  import opened Wrappers

  const Https: string := "https://"
  const Http: string := "http://"

  /**
   * What `/(https?:\/\/[^\s]+)/` matches: a scheme, then one or more
   * characters none of which is JavaScript whitespace.
   */
  predicate IsUrl(u: string) {
    ((StartsWith(u, Https) && |u| > |Https|) || (StartsWith(u, Http) && |u| > |Http|)) &&
    forall k :: 0 <= k < |u| ==> !InClass(u[k], JsSpace)
  }

  /** Length of the longest prefix of `t` without whitespace (the greedy `[^\s]+`). */
  function NonSpaceRun(t: string): (n: nat)
    ensures n <= |t|
    ensures forall k :: 0 <= k < n ==> !InClass(t[k], JsSpace)
    ensures n < |t| ==> InClass(t[n], JsSpace)
  {
    if t != [] && !InClass(t[0], JsSpace) then 1 + NonSpaceRun(t[1..]) else 0
  }

  /**
   * Length of the match the regular expression makes at the start of `t`,
   * or 0 when it makes none there: "https?" tries the "s" first, and the
   * run of non-whitespace after the scheme is taken whole.
   */
  function UrlMatch(t: string): (n: nat)
    ensures n <= |t|
    ensures n == 0 || |Http| < n
  {
    if StartsWith(t, Https) && |t| > |Https| && !InClass(t[|Https|], JsSpace) then
      |Https| + NonSpaceRun(t[|Https|..])
    else if StartsWith(t, Http) && |t| > |Http| && !InClass(t[|Http|], JsSpace) then
      |Http| + NonSpaceRun(t[|Http|..])
    else 0
  }

  /**
   * The match at the start of `t` is a URL that stops only at whitespace or
   * at the end of the text; there is no match exactly when no prefix of `t`
   * is a URL.
   */
  lemma UrlMatchSpec(t: string)
    ensures UrlMatch(t) > 0 ==> IsUrl(t[..UrlMatch(t)])
    ensures UrlMatch(t) > 0 && UrlMatch(t) < |t| ==> InClass(t[UrlMatch(t)], JsSpace)
    ensures UrlMatch(t) == 0 <==> forall m :: 0 < m <= |t| ==> !IsUrl(t[..m])
  {
    if UrlMatch(t) > 0 {
      MatchIsUrl(t);
    } else {
      forall m | 0 < m <= |t| ensures !IsUrl(t[..m]) {
        NoMatchNoUrl(t, m);
      }
    }
  }

  lemma MatchIsUrl(t: string)
    requires UrlMatch(t) > 0
    ensures IsUrl(t[..UrlMatch(t)])
  {
    var n := UrlMatch(t);
    var secure := StartsWith(t, Https) && |t| > |Https| && !InClass(t[|Https|], JsSpace);
    var scheme := if secure then Https else Http;
    var s := |scheme|;
    var u := t[..n];
    assert n == s + NonSpaceRun(t[s..]) && n > s;
    StartsWithPrefixOf(t, u, scheme);
    SchemesHaveNoSpace();
    forall k | 0 <= k < n ensures !InClass(u[k], JsSpace) {
      if k < s {
        assert u[k] == scheme[k];
      } else {
        assert u[k] == t[s..][k - s];
      }
    }
  }

  lemma SchemesHaveNoSpace()
    ensures forall k :: 0 <= k < |Https| ==> !InClass(Https[k], JsSpace)
    ensures forall k :: 0 <= k < |Http| ==> !InClass(Http[k], JsSpace)
  {
  }

  lemma NoMatchNoUrl(t: string, m: nat)
    requires UrlMatch(t) == 0 && 0 < m <= |t|
    ensures !IsUrl(t[..m])
  {
    var u := t[..m];
    if StartsWith(u, Https) && |u| > |Https| {
      assert t[..|Https|] == u[..|Https|] && t[|Https|] == u[|Https|];
    } else if StartsWith(u, Http) && |u| > |Http| {
      assert t[..|Http|] == u[..|Http|] && t[|Http|] == u[|Http|];
    }
  }

  /** One step of the global replace: a character kept as it is, or a matched URL. */
  datatype Piece = Plain(c: char) | Link(url: string)

  /** The text a piece was taken from. */
  function Source(p: Piece): string {
    match p
    case Plain(c) => [c]
    case Link(u) => u
  }

  /** The anchor the replace callback builds for one URL. */
  function AnchorFor(url: string): string {
    "<a href=\"" + url + "\" target=\"_blank\" rel=\"noopener noreferrer\">" + url + "</a>"
  }

  /** What a piece is replaced by. */
  function Html(p: Piece): string {
    match p
    case Plain(c) => [c]
    case Link(u) => AnchorFor(u)
  }

  /** The piece the scan takes at the start of `t`: the URL matched there, or the first character. */
  function Head(t: string): (p: Piece)
    requires t != []
    ensures 0 < |Source(p)| <= |t| && Source(p) == t[..|Source(p)|]
  {
    var n := UrlMatch(t);
    if n > 0 then Link(t[..n]) else Plain(t[0])
  }

  /** The global replace scans left to right and resumes after each match. */
  function Tokenize(t: string): (ps: seq<Piece>)
    ensures |ps| <= |t|
    ensures ps == [] <==> t == []
    decreases |t|
  {
    if t == [] then []
    else
      var p := Head(t);
      [p] + Tokenize(t[|Source(p)|..])
  }

  /** The text the pieces came from. */
  function Flatten(ps: seq<Piece>): string {
    if ps == [] then [] else Source(ps[0]) + Flatten(ps[1..])
  }

  /** The pieces written out: characters as they are, URLs as anchors. */
  function Render(ps: seq<Piece>): string {
    if ps == [] then [] else Html(ps[0]) + Render(ps[1..])
  }

  /** `text.replace(/(https?:\/\/[^\s]+)/g, url => <anchor>)` */
  function Linkify(text: string): (r: string)
    ensures |text| <= |r|
  {
    TokenizeFlatten(text);
    RenderLonger(Tokenize(text));
    Render(Tokenize(text))
  }

  /** A piece is never shorter written out than the text it came from. */
  lemma {:induction false} RenderLonger(ps: seq<Piece>)
    ensures |Flatten(ps)| <= |Render(ps)|
  {
    if ps != [] {
      RenderLonger(ps[1..]);
    }
  }

  /** The inner HTML of one chat line: `<strong>{sender}:</strong> {linkified}`. */
  function MessageHtml(sender: string, text: string): (r: string)
    ensures StartsWith(r, "<strong>" + sender + ":</strong> ")
    ensures |r| >= |sender| + |text| + 19
  {
    "<strong>" + sender + ":</strong> " + Linkify(text)
  }

  /** Nothing of the text is lost or reordered: the pieces spell the text again. */
  lemma {:induction false} TokenizeFlatten(t: string)
    ensures Flatten(Tokenize(t)) == t
    decreases |t|
  {
    if t != [] {
      var p := Head(t);
      var n := |Source(p)|;
      calc {
        Flatten(Tokenize(t));
        { assert Tokenize(t) == [p] + Tokenize(t[n..]); }
        Flatten([p] + Tokenize(t[n..]));
        { assert ([p] + Tokenize(t[n..]))[1..] == Tokenize(t[n..]); }
        Source(p) + Flatten(Tokenize(t[n..]));
        { TokenizeFlatten(t[n..]); }
        t[..n] + t[n..];
        t;
      }
    }
  }

  /**
   * Every link is a URL, and a maximal one: the piece after it, if any, is a
   * whitespace character.
   */
  predicate LinksMaximal(ps: seq<Piece>) {
    forall i :: 0 <= i < |ps| && ps[i].Link? ==>
      IsUrl(ps[i].url) && (i + 1 < |ps| ==> ps[i + 1].Plain? && InClass(ps[i + 1].c, JsSpace))
  }

  lemma ConsLinksMaximal(p: Piece, qs: seq<Piece>)
    requires LinksMaximal(qs)
    requires p.Link? ==> IsUrl(p.url) && (qs != [] ==> qs[0].Plain? && InClass(qs[0].c, JsSpace))
    ensures LinksMaximal([p] + qs)
  {
    var ps := [p] + qs;
    forall i | 0 <= i < |ps| && ps[i].Link?
      ensures IsUrl(ps[i].url) && (i + 1 < |ps| ==> ps[i + 1].Plain? && InClass(ps[i + 1].c, JsSpace))
    {
      if i > 0 {
        assert ps[i] == qs[i - 1];
      }
    }
  }

  /** The scan only ever produces maximal URLs as links. */
  lemma {:induction false} TokenizeLinksMaximal(t: string)
    ensures LinksMaximal(Tokenize(t))
    decreases |t|
  {
    if t != [] {
      var p := Head(t);
      var rest := t[|Source(p)|..];
      TokenizeLinksMaximal(rest);
      UrlMatchSpec(t);
      if p.Link? && rest != [] {
        NoUrlAtSpace(rest);
      }
      ConsLinksMaximal(p, Tokenize(rest));
    }
  }

  /**
   * The converse: the scan misses no URL. Every character it keeps as plain
   * text stands at a position of the text where no URL starts.
   */
  lemma {:induction false} PlainStartsNoUrl(t: string, i: nat)
    requires i < |Tokenize(t)| && Tokenize(t)[i].Plain?
    ensures |Flatten(Tokenize(t)[..i])| < |t|
    ensures UrlMatch(t[|Flatten(Tokenize(t)[..i])|..]) == 0
    decreases |t|
  {
    var p := Head(t);
    var n := |Source(p)|;
    var rest := t[n..];
    var qs := Tokenize(rest);
    assert Tokenize(t) == [p] + qs;
    if i == 0 {
      assert Tokenize(t)[..0] == [];
    } else {
      assert Tokenize(t)[i] == qs[i - 1];
      PlainStartsNoUrl(rest, i - 1);
      FlattenConsPrefix(p, qs, i);
      DropDrop(t, n, |Flatten(qs[..i - 1])|);
    }
  }

  lemma DropDrop(t: string, n: nat, m: nat)
    requires n + m <= |t|
    ensures t[n..][m..] == t[n + m..]
  {
  }

  /** The text before piece `i` of `[p] + qs` is the source of `p`, then the text before piece `i - 1` of `qs`. */
  lemma FlattenConsPrefix(p: Piece, qs: seq<Piece>, i: nat)
    requires 0 < i <= |qs| + 1
    ensures Flatten(([p] + qs)[..i]) == Source(p) + Flatten(qs[..i - 1])
  {
    var ps := ([p] + qs)[..i];
    assert ps[0] == p && ps[1..] == qs[..i - 1];
  }

  /** No URL starts at a whitespace character, so the scan keeps it as a plain character. */
  lemma NoUrlAtSpace(t: string)
    requires t != [] && InClass(t[0], JsSpace)
    ensures Tokenize(t)[0] == Plain(t[0])
  {
    assert !InClass(Https[0], JsSpace) && !InClass(Http[0], JsSpace);
  }

  /** Rendering works piece by piece. */
  lemma {:induction false} RenderAppend(a: seq<Piece>, b: seq<Piece>)
    ensures Render(a + b) == Render(a) + Render(b)
    decreases |a|
  {
    if a == [] {
      assert a + b == b;
    } else {
      assert (a + b)[0] == a[0] && (a + b)[1..] == a[1..] + b;
      RenderAppend(a[1..], b);
      var h := Html(a[0]);
      assert h + (Render(a[1..]) + Render(b)) == h + Render(a[1..]) + Render(b);
    }
  }

  /** Text containing neither "http://" nor "https://" comes back unchanged. */
  lemma {:induction false} LinkifyWithoutUrls(t: string)
    requires !Contains(t, Http) && !Contains(t, Https)
    ensures Linkify(t) == t
    decreases |t|
  {
    if t != [] {
      assert UrlMatch(t) == 0;
      LinkifyWithoutUrls(t[1..]);
      assert t == [t[0]] + t[1..];
    }
  }

  /** A character other than 'h' is never the start of a URL and is kept as a plain piece. */
  lemma TokenizePlainChar(c: char, t: string)
    requires c != 'h'
    ensures Tokenize([c] + t) == [Plain(c)] + Tokenize(t)
  {
    var s := [c] + t;
    assert s[0] == c && s[1..] == t;
    assert !StartsWith(s, Https) && !StartsWith(s, Http);
  }

  /** Each character of `s` as a plain piece. */
  function Plains(s: string): (ps: seq<Piece>)
    ensures |ps| == |s| && forall k :: 0 <= k < |s| ==> ps[k] == Plain(s[k])
  {
    if s == [] then [] else [Plain(s[0])] + Plains(s[1..])
  }

  /** Plain pieces render as the characters they hold. */
  lemma {:induction false} RenderPlains(s: string)
    ensures Render(Plains(s)) == s
    decreases |s|
  {
    if s != [] {
      RenderPlains(s[1..]);
      assert ([Plain(s[0])] + Plains(s[1..]))[1..] == Plains(s[1..]);
      assert s == [s[0]] + s[1..];
    }
  }

  /** Text in which no 'h' occurs is scanned character by character. */
  lemma {:induction false} TokenizePlainPrefix(pre: string, t: string)
    requires forall k :: 0 <= k < |pre| ==> pre[k] != 'h'
    ensures Tokenize(pre + t) == Plains(pre) + Tokenize(t)
    decreases |pre|
  {
    if pre == [] {
      assert pre + t == t && Plains(pre) == [];
    } else {
      var rest := pre[1..];
      var p, ps, ts := [Plain(pre[0])], Plains(rest), Tokenize(t);
      calc {
        Tokenize(pre + t);
        { TokenizePlainStep(pre, t); }
        p + Tokenize(rest + t);
        { TokenizePlainPrefix(rest, t); }
        p + (ps + ts);
        p + ps + ts;
        Plains(pre) + ts;
      }
    }
  }

  lemma TokenizePlainStep(pre: string, t: string)
    requires pre != [] && pre[0] != 'h'
    ensures Tokenize(pre + t) == [Plain(pre[0])] + Tokenize(pre[1..] + t)
  {
    assert pre + t == [pre[0]] + (pre[1..] + t);
    TokenizePlainChar(pre[0], pre[1..] + t);
  }

  /** Text in which no 'h' occurs is copied through before whatever follows it. */
  lemma LinkifyPlainPrefix(pre: string, t: string)
    requires forall k :: 0 <= k < |pre| ==> pre[k] != 'h'
    ensures Linkify(pre + t) == pre + Linkify(t)
  {
    TokenizePlainPrefix(pre, t);
    RenderAppend(Plains(pre), Tokenize(t));
    RenderPlains(pre);
  }

  /** A character other than 'h' is copied through. */
  lemma LinkifyPlainChar(c: char, t: string)
    requires c != 'h'
    ensures Linkify([c] + t) == [c] + Linkify(t)
  {
    LinkifyPlainPrefix([c], t);
  }

  /**
   * A URL that is followed by whitespace or by the end of the text becomes
   * one anchor; what follows is linkified in turn.
   */
  lemma LinkifyUrl(u: string, rest: string)
    requires IsUrl(u)
    requires rest == [] || InClass(rest[0], JsSpace)
    ensures Linkify(u + rest) == AnchorFor(u) + Linkify(rest)
  {
    var t := u + rest;
    UrlMatchOfUrl(u, rest);
    assert t[..|u|] == u && t[|u|..] == rest;
    assert Tokenize(t) == [Link(u)] + Tokenize(rest);
    assert ([Link(u)] + Tokenize(rest))[1..] == Tokenize(rest);
  }

  /** The regular expression matches a whole URL that whitespace or the end of the text follows. */
  lemma UrlMatchOfUrl(u: string, rest: string)
    requires IsUrl(u)
    requires rest == [] || InClass(rest[0], JsSpace)
    ensures UrlMatch(u + rest) == |u|
  {
    var t := u + rest;
    assert t[..|u|] == u;
    StartsWithPrefixOf(t, u, Https);
    StartsWithPrefixOf(t, u, Http);
    var s := if StartsWith(u, Https) && |u| > |Https| then |Https| else |Http|;
    assert t[s] == u[s];
    assert t[s..] == u[s..] + rest;
    NonSpaceRunAt(t[s..], |u| - s);
  }

  /** The greedy run is the one that stops exactly at the first whitespace. */
  lemma NonSpaceRunAt(t: string, n: nat)
    requires n <= |t|
    requires forall k :: 0 <= k < n ==> !InClass(t[k], JsSpace)
    requires n < |t| ==> InClass(t[n], JsSpace)
    ensures NonSpaceRun(t) == n
  {
  }

  /**
   * A URL after text without an 'h' and before whitespace or the end becomes
   * one anchor, with the text before it untouched.
   */
  lemma LinkifyAround(pre: string, u: string, post: string)
    requires forall k :: 0 <= k < |pre| ==> pre[k] != 'h'
    requires IsUrl(u)
    requires post == [] || InClass(post[0], JsSpace)
    ensures Linkify(pre + u + post) == pre + AnchorFor(u) + Linkify(post)
  {
    calc {
      Linkify(pre + u + post);
      { assert pre + u + post == pre + (u + post); }
      Linkify(pre + (u + post));
      { LinkifyPlainPrefix(pre, u + post); }
      pre + Linkify(u + post);
      { LinkifyUrl(u, post); }
      pre + (AnchorFor(u) + Linkify(post));
      pre + AnchorFor(u) + Linkify(post);
    }
  }

  /** Punctuation right after a URL has no whitespace in it and becomes part of the link. */
  lemma TrailingDotJoinsUrl(pre: string, u: string, post: string)
    requires IsUrl(u)
    requires post == [] || InClass(post[0], JsSpace)
    requires forall k :: 0 <= k < |pre| ==> pre[k] != 'h'
    ensures Linkify(pre + (u + ".") + post) == pre + AnchorFor(u + ".") + Linkify(post)
  {
    DotExtendsUrl(u);
    LinkifyAround(pre, u + ".", post);
  }

  /** A URL followed by '.' is still a URL. */
  lemma DotExtendsUrl(u: string)
    requires IsUrl(u)
    ensures IsUrl(u + ".")
  {
    var v := u + ".";
    assert v[..|u|] == u;
    assert forall k :: 0 <= k < |u| ==> v[k] == u[k];
  }

  /** A message line without URLs shows the text as it was typed. */
  lemma PlainMessageHtml(sender: string, text: string)
    requires !Contains(text, Http) && !Contains(text, Https)
    ensures MessageHtml(sender, text) == "<strong>" + sender + ":</strong> " + text
  {
    LinkifyWithoutUrls(text);
  }

  /** The localized greetings, keyed by language code. */
  const Greetings: map<string, string> := map[
    "en" := "Hello! I am your SmartGuard EDU here to help you with your homework. \U{1F60A}",
    "es" := "\U{A1}Hola! Soy tu SmartGuard EDU para ayudarte con tu tarea. \U{1F60A}",
    "fr" := "Bonjour ! Je suis votre SmartGuard EDU pour vous aider avec vos devoirs. \U{1F60A}",
    "de" := "Hallo! Ich bin dein SmartGuard EDU, um dir bei deinen Hausaufgaben zu helfen. \U{1F60A}",
    "zh" := "\U{4F60}\U{597D}\U{FF01}\U{6211}\U{662F}\U{4F60}\U{7684}SmartGuard EDU\U{FF0C}\U{6765}\U{5E2E}\U{52A9}\U{4F60}\U{5B8C}\U{6210}\U{4F5C}\U{4E1A}\U{3002}\U{1F60A}"
  ]

  /** The language codes app.py lists in `LANGUAGES`. */
  const Languages: seq<string> := ["en", "es", "fr", "de", "ht", "zh"]

  /**
   * `table[lang] || table["en"]`: a missing key and an empty string are both
   * falsy; `None` stands for `undefined`.
   */
  function Greeting(table: map<string, string>, lang: string): (g: Option<string>)
    ensures "en" in table ==> g.Some?
    ensures g.Some? ==> g.value in table.Values
  {
    if lang in table && table[lang] != "" then Some(table[lang])
    else if "en" in table then Some(table["en"])
    else None
  }

  /**
   * Over any table, the greeting is the language's own non-empty entry when
   * there is one and the English entry otherwise. This unfolds the definition
   * of `Greeting`, split by which operand of `||` decides.
   */
  lemma GreetingChoice(table: map<string, string>, lang: string)
    ensures lang in table && table[lang] != "" ==> Greeting(table, lang) == Some(table[lang])
    ensures !(lang in table && table[lang] != "") ==>
      Greeting(table, lang) == (if "en" in table then Some(table["en"]) else None)
  {
  }

  /** Every greeting of the client's table is non-empty, so a listed language gets its own. */
  lemma GreetingOfListedLanguage(lang: string)
    requires lang in Greetings
    ensures Greeting(Greetings, lang) == Some(Greetings[lang])
  {
    assert Greetings.Keys == {"en", "es", "fr", "de", "zh"};
  }

  /** Any other code, such as "ht" which app.py lists in `LANGUAGES`, falls back to English. */
  lemma GreetingOfOtherLanguage(lang: string)
    requires lang !in Greetings
    ensures Greeting(Greetings, lang) == Some(Greetings["en"])
  {
  }

  /** Every code app.py lists in `LANGUAGES` has a greeting; only "ht" borrows the English one. */
  lemma EveryLanguageGreeted(i: nat)
    requires i < |Languages|
    ensures Greeting(Greetings, Languages[i]).Some?
    ensures Greeting(Greetings, Languages[i]) == Some(Greetings["en"]) <==> Languages[i] in {"en", "ht"}
  {
    var lang := Languages[i];
    if lang in Greetings {
      GreetingOfListedLanguage(lang);
    }
  }

  /** `userInput.value.trim()`, and `None` where `if (!message) return;` drops it. */
  function SubmittedMessage(value: string): (r: Option<string>)
    ensures r.Some? ==> 0 < |r.value| <= |value|
    ensures r.Some? ==> !InClass(r.value[0], JsSpace) && !InClass(r.value[|r.value| - 1], JsSpace)
  {
    var m := Strip(value, JsSpace);
    if m == [] then None else Some(m)
  }

  /**
   * A message is dropped exactly when the input is all whitespace; otherwise
   * what is sent is the input with its surrounding whitespace removed and
   * nothing else changed.
   */
  lemma SubmittedMessageSpec(value: string)
    ensures SubmittedMessage(value).None? <==> forall k :: 0 <= k < |value| ==> InClass(value[k], JsSpace)
    ensures SubmittedMessage(value).Some? ==>
      var m := SubmittedMessage(value).value;
      exists i, j :: 0 <= i < j <= |value| && m == value[i..j] &&
        !InClass(m[0], JsSpace) && !InClass(m[|m| - 1], JsSpace) &&
        (forall k :: 0 <= k < i ==> InClass(value[k], JsSpace)) &&
        (forall k :: j <= k < |value| ==> InClass(value[k], JsSpace))
  {
    var i, j := StripSpan(value, JsSpace);
    if i < j {
      assert !InClass(value[i], JsSpace);
    } else {
      forall k | 0 <= k < |value| ensures InClass(value[k], JsSpace) {
        if k >= i {
          assert k >= j;
        }
      }
    }
  }
}
