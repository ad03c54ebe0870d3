/**
 * The rich-text body of a shout and its reduction to plain text.
 *
 * The client rewrites the body in two passes before reading its text: every
 * image becomes its alternative text, then every link becomes its target
 * address. `Body` follows those passes; `Flatten` is an independent one-pass
 * definition of the same text, and `Body`'s contract says the two agree.
 */
module Markup {

  datatype Node =
    | Text(text: string)
    | Image(alt: string)
    | Link(href: string, children: seq<Node>)
    | Element(children: seq<Node>)

  /** No image occurs anywhere in the tree. */
  predicate NoImages(n: Node) {
    match n
    case Text(_) => true
    case Image(_) => false
    case Link(_, cs) => forall k :: 0 <= k < |cs| ==> NoImages(cs[k])
    case Element(cs) => forall k :: 0 <= k < |cs| ==> NoImages(cs[k])
  }

  /** Neither an image nor a link occurs anywhere in the tree. */
  predicate PlainText(n: Node) {
    match n
    case Text(_) => true
    case Image(_) => false
    case Link(_, _) => false
    case Element(cs) => forall k :: 0 <= k < |cs| ==> PlainText(cs[k])
  }

  /** First pass: each image is replaced by a text node holding its `alt` attribute. */
  function ReplaceImages(n: Node): (r: Node)
    ensures NoImages(r)
    ensures n.Link? ==> r.Link? && r.href == n.href
  {
    match n
    case Text(_) => n
    case Image(alt) => Text(alt)
    case Link(href, cs) => Link(href, ReplaceImagesIn(cs))
    case Element(cs) => Element(ReplaceImagesIn(cs))
  }

  function ReplaceImagesIn(ns: seq<Node>): (rs: seq<Node>)
    ensures |rs| == |ns|
    ensures forall k :: 0 <= k < |rs| ==> NoImages(rs[k])
  {
    if |ns| == 0 then [] else [ReplaceImages(ns[0])] + ReplaceImagesIn(ns[1..])
  }

  /** Second pass: each link, with whatever it contains, is replaced by a text node holding its `href`. */
  function ReplaceLinks(n: Node): (r: Node)
    requires NoImages(n)
    ensures PlainText(r)
  {
    match n
    case Text(_) => n
    case Link(href, _) => Text(href)
    case Element(cs) => Element(ReplaceLinksIn(cs))
  }

  function ReplaceLinksIn(ns: seq<Node>): (rs: seq<Node>)
    requires forall k :: 0 <= k < |ns| ==> NoImages(ns[k])
    ensures |rs| == |ns|
    ensures forall k :: 0 <= k < |rs| ==> PlainText(rs[k])
  {
    if |ns| == 0 then [] else [ReplaceLinks(ns[0])] + ReplaceLinksIn(ns[1..])
  }

  /** The concatenated text of a tree, as an HTML `text()` reads it: images contribute nothing. */
  function TextContent(n: Node): string {
    match n
    case Text(t) => t
    case Image(_) => ""
    case Link(_, cs) => TextContentIn(cs)
    case Element(cs) => TextContentIn(cs)
  }

  function TextContentIn(ns: seq<Node>): string {
    if |ns| == 0 then "" else TextContent(ns[0]) + TextContentIn(ns[1..])
  }

  /**
   * The message text the client stores for a body: both passes, then
   * `text()`. It is the reference reading: each image reads as its caption,
   * each link as its address, text as itself, in order.
   */
  function Body(ns: seq<Node>): (r: string)
    ensures r == FlattenIn(ns)
  {
    PassesFlattenIn(ns);
    TextContentIn(ReplaceLinksIn(ReplaceImagesIn(ns)))
  }

  /** Reference reading of a body: images read as their caption, links as their address. */
  function Flatten(n: Node): string {
    match n
    case Text(t) => t
    case Image(alt) => alt
    case Link(href, _) => href
    case Element(cs) => FlattenIn(cs)
  }

  function FlattenIn(ns: seq<Node>): string {
    if |ns| == 0 then "" else Flatten(ns[0]) + FlattenIn(ns[1..])
  }

  lemma {:induction false} PassesFlatten(n: Node)
    ensures TextContent(ReplaceLinks(ReplaceImages(n))) == Flatten(n)
    decreases n, 1
  {
    match n
    case Text(_) =>
    case Image(_) =>
    case Link(_, _) =>
    case Element(cs) => PassesFlattenIn(cs);
  }

  lemma {:induction false} PassesFlattenIn(ns: seq<Node>)
    ensures TextContentIn(ReplaceLinksIn(ReplaceImagesIn(ns))) == FlattenIn(ns)
    decreases ns, 0
  {
    if |ns| > 0 {
      PassesFlatten(ns[0]);
      PassesFlattenIn(ns[1..]);
    }
  }

  /** A link's own content never reaches the text: only its address does. */
  lemma LinkContentDiscarded(href: string, cs: seq<Node>, ds: seq<Node>)
    ensures Body([Link(href, cs)]) == Body([Link(href, ds)]) == href
  {
    assert FlattenIn([Link(href, cs)]) == Flatten(Link(href, cs)) + FlattenIn([]);
    assert FlattenIn([Link(href, ds)]) == Flatten(Link(href, ds)) + FlattenIn([]);
  }

  /** An image captioned "smile", a space and a link to "http://x" read as "smile http://x". */
  lemma SmileAndLink(cs: seq<Node>)
    ensures Body([Image("smile"), Text(" "), Link("http://x", cs)]) == "smile http://x"
  {
    var ns := [Image("smile"), Text(" "), Link("http://x", cs)];
    assert Body(ns) == FlattenIn(ns);
    assert ns[1..][1..] == [Link("http://x", cs)];
    assert FlattenIn(ns[1..][1..]) == "http://x" + FlattenIn([]);
    assert FlattenIn(ns[1..]) == " " + FlattenIn(ns[1..][1..]);
    assert FlattenIn(ns) == "smile" + FlattenIn(ns[1..]);
  }
}
