/**
 * Shaping of a retrieved page into shout records (the client's `_fetch`).
 *
 * The HTML document is replaced by its abstract content: one container per
 * shout, carrying the text of its screen-name element, the children of its
 * message element and its `title` attribute, plus the text the page assigns
 * to its last-rendered-shout counter. The pattern that splits a title into
 * time and date is a parameter.
 */
module Parser {
  import opened Wrappers
  import opened JsNumbers
  import opened Records
  import opened Markup

  /** One shout container of the page. */
  datatype Container = Container(screenName: string, body: seq<Node>, title: string)

  /** A retrieved page: its shout containers in display order, oldest first, and its counter text. */
  datatype Page = Page(containers: seq<Container>, counter: string)

  /** Splits a `title` attribute into time and date, or fails to match. */
  type TitleSplitter = string -> Option<(string, string)>

  /** `sender` is `screenName` with exactly its final character removed (an empty label stays empty). */
  predicate TrimmedLabel(sender: string, screenName: string) {
    if |screenName| == 0 then sender == "" else sender + [screenName[|screenName| - 1]] == screenName
  }

  /** The sender of a container: its label without its final character (the board's trailing colon). */
  function SenderOf(screenName: string): (r: string)
    ensures TrimmedLabel(r, screenName)
  {
    if |screenName| == 0 then "" else screenName[..|screenName| - 1]
  }

  predicate TitlesMatch(cs: seq<Container>, split: TitleSplitter) {
    forall k :: 0 <= k < |cs| ==> split(cs[k].title).Some?
  }

  /** The record built for one container, before the counter is attached. */
  function Shape(c: Container, split: TitleSplitter): Shout
    requires split(c.title).Some?
  {
    var stamp := split(c.title).value;
    Shout(SenderOf(c.screenName), Body(c.body), stamp.0, stamp.1, None)
  }

  /** `s` is the record of container `c`: trimmed screenName, flattened body, split title. */
  predicate ShapedFrom(s: Shout, c: Container, split: TitleSplitter) {
    && TrimmedLabel(s.sender, c.screenName)
    && s.message == FlattenIn(c.body)
    && split(c.title) == Some((s.time, s.date))
  }

  function Fetch(page: Page, split: TitleSplitter): (r: Result<seq<Shout>, Error>)
    requires TitlesMatch(page.containers, split)
    requires ParseInt(page.counter).Some? ==> |page.containers| > 0
    ensures r.Failure? <==> ParseInt(page.counter).None?
    ensures r.Failure? ==> r.error == InvalidLastShoutId
    ensures r.Success? ==> |r.value| == |page.containers|
    ensures r.Success? ==>
      forall k :: 0 <= k < |r.value| ==> ShapedFrom(r.value[k], page.containers[k], split)
    ensures r.Success? ==> IdOnLastOnly(r.value) && r.value[|r.value| - 1].id == ParseInt(page.counter)
  {
    var cs := page.containers;
    match ParseInt(page.counter)
    case None => Failure(InvalidLastShoutId)
    case Some(n) =>
      var shaped := seq(|cs|, k requires 0 <= k < |cs| => Shape(cs[k], split));
      var last := |cs| - 1;
      Success(shaped[..last] + [shaped[last].(id := Some(n))])
  }
}
