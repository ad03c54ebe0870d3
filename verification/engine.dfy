/**
 * The chat mirror's reconciliation engine: the cursor state, the refresh
 * that diffs a freshly fetched page against the cursor, the poll decision
 * and the refresh that follows a successful post.
 *
 * The instance state is an explicit value passed in and returned. Network
 * answers arrive as parameters: a fetched page as the `Result` of `Fetch`,
 * the light check as the `Result` of `CheckResponse`.
 */
module Engine {
  import opened Wrappers
  import opened Records
  import opened Responses
  import opened JsNumbers
  import opened Parser

  /** The state after the initial fetch: the last fetched list and the last-known shout (the cursor). */
  datatype Chat = Chat(known: seq<Shout>, lastKnown: Shout)

  /** The cursor is the final shout of the known list. */
  predicate Valid(chat: Chat) {
    |chat.known| > 0 && chat.lastKnown == chat.known[|chat.known| - 1]
  }

  /** The next state and the shouts emitted as `message` events, in emission order. */
  datatype Step = Step(next: Chat, emitted: seq<Shout>)

  /** Index of the first fetched shout whose content equals the cursor's. */
  function FirstMatch(shouts: seq<Shout>, cursor: Shout): (r: Option<nat>)
    ensures r.Some? ==> r.value < |shouts| && SameContent(shouts[r.value], cursor)
    ensures r.Some? ==> forall k :: 0 <= k < r.value ==> !SameContent(shouts[k], cursor)
    ensures r.None? ==> forall k :: 0 <= k < |shouts| ==> !SameContent(shouts[k], cursor)
  {
    if |shouts| == 0 then None
    else if SameContent(shouts[0], cursor) then Some(0)
    else match FirstMatch(shouts[1..], cursor)
      case None => None
      case Some(i) => Some(i + 1)
  }

  /**
   * The shouts a refresh treats as new: those after the first shout that
   * matches the cursor, or none at all when no shout matches.
   */
  function Unseen(shouts: seq<Shout>, cursor: Shout): (r: seq<Shout>)
    ensures |r| <= |shouts| && r == shouts[|shouts| - |r|..]
  {
    match FirstMatch(shouts, cursor)
    case None => []
    case Some(i) => shouts[i + 1..]
  }

  /** The initial fetch: every shout is backlog, and the cursor becomes the final one. */
  function Init(shouts: seq<Shout>): (step: Step)
    requires |shouts| > 0
    ensures Valid(step.next) && step.next.known == shouts
    ensures step.emitted == shouts
  {
    Step(Chat(shouts, shouts[|shouts| - 1]), shouts)
  }

  lemma {:induction false} FirstMatchSnoc(s: seq<Shout>, x: Shout, c: Shout)
    ensures FirstMatch(s + [x], c) ==
      if FirstMatch(s, c).Some? then FirstMatch(s, c)
      else if SameContent(x, c) then Some(|s|)
      else None
  {
    if |s| > 0 {
      assert (s + [x])[1..] == s[1..] + [x];
      FirstMatchSnoc(s[1..], x, c);
    }
  }

  lemma UnseenSnoc(s: seq<Shout>, x: Shout, c: Shout)
    ensures Unseen(s + [x], c) == if FirstMatch(s, c).Some? then Unseen(s, c) + [x] else []
  {
    FirstMatchSnoc(s, x, c);
    match FirstMatch(s, c)
    case Some(i) =>
      SliceSnoc(s, x, i + 1);
    case None =>
      SliceSnoc(s, x, |s|);
  }

  lemma SliceSnoc(s: seq<Shout>, x: Shout, i: nat)
    requires i <= |s|
    ensures (s + [x])[i..] == s[i..] + [x]
  {
  }

  /** One step of the refresh scan, stated on prefixes of the fetched list. */
  lemma ScanStep(s: seq<Shout>, i: nat, c: Shout)
    requires i < |s|
    ensures FirstMatch(s[..i + 1], c).Some? <==> FirstMatch(s[..i], c).Some? || SameContent(s[i], c)
    ensures Unseen(s[..i + 1], c) == if FirstMatch(s[..i], c).Some? then Unseen(s[..i], c) + [s[i]] else []
  {
    assert s[..i + 1] == s[..i] + [s[i]];
    FirstMatchSnoc(s[..i], s[i], c);
    UnseenSnoc(s[..i], s[i], c);
  }

  /**
   * The refresh scan: walks the fetched shouts in order with a flag that
   * turns on after the first shout matching the cursor, emitting every shout
   * seen while the flag is on; then the fetched list replaces the known one.
   */
  method Refresh(chat: Chat, shouts: seq<Shout>) returns (step: Step)
    requires |shouts| > 0
    ensures step.emitted == Unseen(shouts, chat.lastKnown)
    ensures Valid(step.next) && step.next.known == shouts
  {
    var emitted: seq<Shout> := [];
    var shoutEmit := false;
    var i := 0;
    while i < |shouts|
      invariant 0 <= i <= |shouts|
      invariant shoutEmit <==> FirstMatch(shouts[..i], chat.lastKnown).Some?
      invariant emitted == Unseen(shouts[..i], chat.lastKnown)
    {
      var shout := shouts[i];
      ScanStep(shouts, i, chat.lastKnown);
      if shoutEmit {
        emitted := emitted + [shout];
      }
      if SameContent(shout, chat.lastKnown) {
        shoutEmit := true;
      }
      i := i + 1;
    }
    assert shouts[..i] == shouts;
    step := Step(Chat(shouts, shouts[|shouts| - 1]), emitted);
  }

  /**
   * The poll decision: refresh only when the cursor's counter is below the
   * board's. A cursor without a counter never triggers a refresh, as the
   * comparison of an absent value with a number is false.
   */
  predicate ShouldRefresh(lastKnown: Shout, remote: int)
    ensures ShouldRefresh(lastKnown, remote) ==> lastKnown.id.Some?
    ensures lastKnown.id.Some? ==> (ShouldRefresh(lastKnown, remote) <==> lastKnown.id.value < remote)
  {
    match lastKnown.id
    case None => false
    case Some(id) => id < remote
  }

  /** A refresh against a fetch outcome: a failed fetch leaves the state alone and reports its error. */
  method RefreshFetched(chat: Chat, fetched: Result<seq<Shout>, Error>) returns (step: Step, err: Option<Error>)
    requires fetched.Success? ==> |fetched.value| > 0
    ensures fetched.Failure? ==> step == Step(chat, []) && err == Some(fetched.error)
    ensures fetched.Success? ==> err.None? && Valid(step.next) && step.next.known == fetched.value
    ensures fetched.Success? ==> step.emitted == Unseen(fetched.value, chat.lastKnown)
  {
    match fetched
    case Failure(e) =>
      step, err := Step(chat, []), Some(e);
    case Success(shouts) =>
      step := Refresh(chat, shouts);
      err := None;
  }

  /**
   * One poll tick: the light check's outcome decides whether the fetched page
   * is reconciled at all. `fetched` is what a refresh would retrieve.
   */
  method Tick(chat: Chat, check: Result<int, Error>, fetched: Result<seq<Shout>, Error>)
    returns (step: Step, err: Option<Error>)
    requires fetched.Success? ==> |fetched.value| > 0
    ensures check.Failure? ==> step == Step(chat, []) && err == Some(check.error)
    ensures check.Success? && !ShouldRefresh(chat.lastKnown, check.value) ==> step == Step(chat, []) && err.None?
    ensures check.Success? && ShouldRefresh(chat.lastKnown, check.value) && fetched.Failure? ==>
      step == Step(chat, []) && err == Some(fetched.error)
    ensures check.Success? && ShouldRefresh(chat.lastKnown, check.value) && fetched.Success? ==>
      err.None? && Valid(step.next) && step.next.known == fetched.value
      && step.emitted == Unseen(fetched.value, chat.lastKnown)
    ensures Valid(chat) ==> Valid(step.next)
  {
    match check
    case Failure(e) =>
      step, err := Step(chat, []), Some(e);
    case Success(remote) =>
      if ShouldRefresh(chat.lastKnown, remote) {
        step, err := RefreshFetched(chat, fetched);
      } else {
        step, err := Step(chat, []), None;
      }
  }

  /**
   * A post and the refresh it schedules: the post's own outcome goes back to
   * the caller; only a successful post leads to a refresh. A failed refresh
   * fetch is returned in `refreshErr`, never in the post's outcome.
   */
  method Post(chat: Chat, status: int, location: Option<string>, fetched: Result<seq<Shout>, Error>)
    returns (posted: Result<int, Error>, step: Step, refreshErr: Option<Error>)
    requires fetched.Success? ==> |fetched.value| > 0
    ensures posted == PostResponse(status, location)
    ensures posted.Failure? ==> step == Step(chat, []) && refreshErr.None?
    ensures posted.Success? && fetched.Failure? ==> step == Step(chat, []) && refreshErr == Some(fetched.error)
    ensures posted.Success? && fetched.Success? ==>
      refreshErr.None? && Valid(step.next) && step.next.known == fetched.value
      && step.emitted == Unseen(fetched.value, chat.lastKnown)
    ensures Valid(chat) ==> Valid(step.next)
  {
    posted := PostResponse(status, location);
    if posted.Success? {
      step, refreshErr := RefreshFetched(chat, fetched);
    } else {
      step, refreshErr := Step(chat, []), None;
    }
  }

  /** Diff boundary: with no earlier match, exactly the shouts after the matching one are emitted. */
  lemma DiffBoundary(before: seq<Shout>, r: Shout, after: seq<Shout>, cursor: Shout)
    requires forall k :: 0 <= k < |before| ==> !SameContent(before[k], cursor)
    requires SameContent(r, cursor)
    ensures Unseen(before + [r] + after, cursor) == after
  {
    var s := before + [r] + after;
    var m := FirstMatch(s, cursor);
    assert s[|before|] == r;
    assert m == Some(|before|);
    assert s[|before| + 1..] == after;
  }

  /** The drop hazard: when the cursor has scrolled off the page, nothing is emitted. */
  lemma CursorScrolledOff(shouts: seq<Shout>, cursor: Shout)
    requires forall k :: 0 <= k < |shouts| ==> !SameContent(shouts[k], cursor)
    ensures Unseen(shouts, cursor) == []
  {
  }

  /**
   * A refresh emits nothing exactly when no shout matches the cursor or the
   * first match is the final shout; otherwise it emits `|shouts| - (i + 1)`
   * shouts for the first match `i`.
   */
  lemma UnseenCount(shouts: seq<Shout>, cursor: Shout)
    ensures FirstMatch(shouts, cursor).Some? ==>
      |Unseen(shouts, cursor)| == |shouts| - (FirstMatch(shouts, cursor).value + 1)
    ensures Unseen(shouts, cursor) == [] <==>
      (forall k :: 0 <= k < |shouts| ==> !SameContent(shouts[k], cursor))
      || FirstMatch(shouts, cursor) == Some(|shouts| - 1)
  {
    if FirstMatch(shouts, cursor).None? {
      CursorScrolledOff(shouts, cursor);
    }
  }

  /**
   * Only the first match counts: a later shout with the cursor's content is
   * emitted again, at its position after the first match.
   */
  lemma RepeatOfCursorReEmitted(shouts: seq<Shout>, cursor: Shout, i: nat, j: nat)
    requires i < j < |shouts|
    requires SameContent(shouts[i], cursor) && SameContent(shouts[j], cursor)
    ensures FirstMatch(shouts, cursor).Some? && FirstMatch(shouts, cursor).value <= i
    ensures Unseen(shouts, cursor)[j - FirstMatch(shouts, cursor).value - 1] == shouts[j]
  {
  }

  /** Shouts that agree in sender, text, time and date; their counters may differ. */
  predicate SameContents(s: seq<Shout>, t: seq<Shout>) {
    |s| == |t| && forall k :: 0 <= k < |s| ==> SameContent(s[k], t[k])
  }

  /** Counters never take part in matching, neither the cursor's nor the fetched shouts'. */
  lemma {:induction false} MatchIgnoresCounters(s: seq<Shout>, t: seq<Shout>, c: Shout, d: Shout)
    requires SameContents(s, t)
    requires SameContent(c, d)
    ensures FirstMatch(s, c) == FirstMatch(t, d)
  {
    if |s| > 0 {
      MatchIgnoresCounters(s[1..], t[1..], c, d);
    }
  }

  /** No shout before the last one has the last one's content. */
  predicate LastIsDistinct(s: seq<Shout>)
    requires |s| > 0
  {
    forall k :: 0 <= k < |s| - 1 ==> !SameContent(s[k], s[|s| - 1])
  }

  /** Refreshing against the very page the cursor came from emits nothing iff the cursor is not repeated on it. */
  lemma SamePageAgain(chat: Chat)
    requires Valid(chat)
    ensures Unseen(chat.known, chat.lastKnown) == [] <==> LastIsDistinct(chat.known)
  {
    var s := chat.known;
    var n := |s| - 1;
    UnseenCount(s, chat.lastKnown);
    assert SameContent(s[n], chat.lastKnown);
  }

  /**
   * Exactly-once delivery while the cursor stays on the page: if the page
   * has scrolled by `dropped` shouts but still holds the cursor, and the
   * cursor is not repeated earlier on the old page, the refresh emits
   * exactly the shouts appended since.
   */
  lemma WindowKeepsCursor(chat: Chat, dropped: nat, added: seq<Shout>)
    requires Valid(chat) && LastIsDistinct(chat.known)
    requires dropped < |chat.known|
    ensures Unseen(chat.known[dropped..] + added, chat.lastKnown) == added
  {
    var kept := chat.known[dropped..];
    var before := kept[..|kept| - 1];
    assert kept == before + [chat.lastKnown];
    forall k | 0 <= k < |before|
      ensures !SameContent(before[k], chat.lastKnown)
    {
      assert before[k] == chat.known[dropped + k];
    }
    DiffBoundary(before, chat.lastKnown, added, chat.lastKnown);
  }

  /**
   * Backlog then live: after the initial fetch, a page that only grew
   * delivers the new shouts, so backlog and live events together are the
   * page, each shout once and in page order.
   */
  lemma BacklogThenLive(first: seq<Shout>, added: seq<Shout>)
    requires |first| > 0 && LastIsDistinct(first)
    ensures Init(first).emitted + Unseen(first + added, Init(first).next.lastKnown) == first + added
  {
    WindowKeepsCursor(Init(first).next, 0, added);
    assert first[0..] == first;
  }

  /**
   * After a refresh from a retrieved page, the next tick refreshes exactly
   * when the board's counter exceeds the counter that page carried.
   */
  lemma PollAfterFetch(chat: Chat, page: Page, split: TitleSplitter, remote: int)
    requires TitlesMatch(page.containers, split)
    requires ParseInt(page.counter).Some? && |page.containers| > 0
    ensures Fetch(page, split).Success?
    ensures var shouts := Fetch(page, split).value;
      ShouldRefresh(shouts[|shouts| - 1], remote) <==> ParseInt(page.counter).value < remote
  {
  }
}
