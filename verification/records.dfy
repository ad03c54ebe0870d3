/** The values the chat client builds and passes around: shout records and its error kinds. */
module Records {
  import opened Wrappers

  /**
   * One chat entry as scraped from the board. `id` is the board's counter
   * and is only ever attached to the newest shout of a fetched page.
   */
  datatype Shout = Shout(sender: string, message: string, time: string, date: string, id: Option<int>)

  /** The errors the client reports through its callbacks. */
  datatype Error =
    | InvalidLastShoutId               // the page's counter assignment is not a number
    | InvalidResponse                  // a post was not answered by a redirect with a target
    | InvalidPostShoutId               // the redirect target carries no numeric `fresh` value
    | InvalidCheckValue(raw: Option<string>)  // the light check's header is missing or not a number

  /**
   * Two shouts are the same message when sender, text, time and date agree;
   * the counter is not compared.
   */
  predicate SameContent(a: Shout, b: Shout)
    ensures SameContent(a, b) <==> a.(id := b.id) == b
  {
    a.sender == b.sender && a.message == b.message && a.time == b.time && a.date == b.date
  }

  /**
   * The shape of every list a successful fetch yields: at least one shout,
   * and the counter present on the final shout only.
   */
  predicate IdOnLastOnly(shouts: seq<Shout>) {
    && |shouts| > 0
    && shouts[|shouts| - 1].id.Some?
    && forall k :: 0 <= k < |shouts| - 1 ==> shouts[k].id.None?
  }
}
