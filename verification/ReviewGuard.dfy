/** The post-Ready guard: a binder attaches one terminal completion to a Codex summary comment, and an
    evaluator that does not trust it rechecks everything. Times are any totally ordered domain; the
    regular expressions and the commit resolution are opaque. */
module ReviewGuard {
  import opened Outcomes
  import Checks = RequiredChecks

  const CODEX_LOGINS: set<string> :=
    {"chatgpt-codex-connector", "chatgpt-codex-connector[bot]", "openai-codex", "openai-codex[bot]"}

  predicate TerminalState(state: string) { state == "APPROVED" || state == "COMMENTED" }

  /** `submittedAt` is `None` only for an unsubmitted draft; anything else is rejected on reading. */
  datatype Review = Review(id: int, login: string, commitId: string, state: string, submittedAt: Option<int>)
  datatype Comment = Comment(id: int, login: string, body: string, createdAt: int, updatedAt: int)
  datatype ReadyEvent = ReadyEvent(id: int, createdAt: int)
  datatype Reaction = Reaction(id: int, login: string, content: string, createdAt: int, targetRepo: string, targetPr: int)

  datatype Trigger = ManualRequest | DraftMarkedReady | OtherTrigger
  datatype Row = Row(completed: Option<int>, ref: string, trigger: Trigger)

  /** `row` is the sole completion row of a body, `resolve` the commit an abbreviated ref names,
      `isCommand` the request test, `passes` the evaluator's text test. */
  datatype Texts = Texts(row: string -> Option<Row>, resolve: string -> string, isCommand: string -> bool, passes: string -> bool)

  /** `trusted` is the case-insensitive requester test; `known` says a requester policy was given. */
  datatype Requesters = Requesters(known: bool, trusted: string -> bool)

  datatype Kind = ByReview(reviewId: int) | ByReaction(reactionId: int)
  datatype Binding = Binding(kind: Kind, head: string, readyEventId: int, completedAt: int, triggerAt: int)
  datatype Summary = Summary(id: int, login: string, body: string, updatedAt: int, binding: Option<Binding>)

  /** What the collector hands to the binder. */
  datatype Collected = Collected(
    repo: string, pr: int, head: string, reviews: seq<Review>, comments: seq<Comment>,
    readyEvents: seq<ReadyEvent>, reactions: seq<Reaction>)

  // ---- Shared pieces -------------------------------------------------------------------------------

  /** The first event with the latest time, as Python's `max` picks it. */
  function Latest(events: seq<ReadyEvent>): (e: ReadyEvent)
    requires events != []
    ensures e in events && forall x :: x in events ==> x.createdAt <= e.createdAt
  {
    if |events| == 1 then events[0]
    else
      var rest := Latest(events[1..]);
      assert forall x :: x in events ==> x == events[0] || x in events[1..];
      if events[0].createdAt >= rest.createdAt then events[0] else rest
  }

  predicate PendingReview(reviews: seq<Review>, head: string) {
    exists r :: r in reviews && r.login in CODEX_LOGINS && r.commitId == head && r.state == "PENDING"
  }

  /** Codex reviews of the head submitted at or after `start`. */
  function CurrentReviews(reviews: seq<Review>, head: string, start: int): seq<Review> {
    Filter(reviews, (r: Review) =>
      r.login in CODEX_LOGINS && r.commitId == head && r.submittedAt.Some? && r.submittedAt.value >= start)
  }

  /** `_clean_reaction_matches` */
  predicate CleanReaction(r: Reaction, login: string, repo: string, pr: int, start: int, completed: int) {
    && r.login in CODEX_LOGINS && r.login == login && r.content == "+1"
    && r.targetRepo == repo && r.targetPr == pr
    && r.createdAt > start && r.createdAt >= completed
  }

  // ---- The binder ----------------------------------------------------------------------------------

  function Unbound(c: Comment): Summary {
    Summary(c.id, c.login, c.body, c.updatedAt, None)
  }

  function CodexComments(comments: seq<Comment>): seq<Comment> {
    Filter(comments, (c: Comment) => c.login in CODEX_LOGINS)
  }

  function ManualCommands(c: Collected, texts: Texts): seq<Comment>
    requires c.readyEvents != []
  {
    var since := Latest(c.readyEvents).createdAt;
    Filter(c.comments, (x: Comment) => texts.isCommand(x.body) && x.createdAt >= since)
  }

  function Requests(c: Collected, texts: Texts, who: Requesters): seq<Comment>
    requires c.readyEvents != []
  {
    Filter(ManualCommands(c, texts), (x: Comment) => who.trusted(x.login))
  }

  function LatestRequest(requests: seq<Comment>): (t: Option<int>)
    ensures t.None? <==> requests == []
    ensures t.Some? ==> (exists x :: x in requests && x.createdAt == t.value) && forall x :: x in requests ==> x.createdAt <= t.value
  {
    if requests == [] then None
    else
      assert requests[0] in requests;
      match LatestRequest(requests[1..])
      case None => assert requests == [requests[0]]; Some(requests[0].createdAt)
      case Some(rest) =>
        assert forall x :: x in requests ==> x == requests[0] || x in requests[1..];
        Some(if requests[0].createdAt >= rest then requests[0].createdAt else rest)
  }

  /** The reasons for which nothing at all is bound. */
  predicate BindingClosed(c: Collected, texts: Texts, who: Requesters) {
    c.readyEvents == [] || PendingReview(c.reviews, c.head) || (ManualCommands(c, texts) != [] && !who.known)
  }

  /** The trigger a row answers, if the row is the answer to the latest one. */
  function TriggerTime(c: Collected, texts: Texts, who: Requesters, row: Row): Option<int>
    requires c.readyEvents != [] && row.completed.Some?
  {
    var latest := LatestRequest(Requests(c, texts, who));
    if row.trigger.OtherTrigger? then None
    else if latest.Some? && latest.value > row.completed.value then None
    else if row.trigger.ManualRequest? then latest
    else if latest.Some? then None
    else Some(Latest(c.readyEvents).createdAt)
  }

  /** One iteration of the summary loop: what it binds, if anything. */
  function BindingFor(c: Collected, texts: Texts, who: Requesters, login: string, body: string): Option<Binding>
    requires c.readyEvents != []
  {
    match texts.row(body)
    case None => None
    case Some(row) =>
      if row.completed.None? then None
      else
        var completed := row.completed.value;
        match TriggerTime(c, texts, who, row)
        case None => None
        case Some(start) =>
          if texts.resolve(row.ref) != c.head || completed < start then None
          else if exists r :: r in c.reactions && r.login in CODEX_LOGINS && r.content == "eyes" && r.createdAt >= start then None
          else
            var current := CurrentReviews(c.reviews, c.head, start);
            var ready := Latest(c.readyEvents);
            if |current| == 1 && TerminalState(current[0].state) && current[0].login == login
               && (assert current[0] in current; current[0].submittedAt.value <= completed) then
              Some(Binding(ByReview(current[0].id), c.head, ready.id, completed, start))
            else if current == [] then
              var clean := Filter(c.reactions, (r: Reaction) => CleanReaction(r, login, c.repo, c.pr, start, completed));
              if |clean| == 1 then Some(Binding(ByReaction(clean[0].id), c.head, ready.id, completed, start)) else None
            else None
  }

  function BindOne(c: Collected, texts: Texts, who: Requesters, comment: Comment): Summary {
    if BindingClosed(c, texts, who) then Unbound(comment)
    else Unbound(comment).(binding := BindingFor(c, texts, who, comment.login, comment.body))
  }

  function BindAll(c: Collected, texts: Texts, who: Requesters, comments: seq<Comment>): (ss: seq<Summary>)
    ensures |ss| == |comments|
    ensures forall i :: 0 <= i < |ss| ==> ss[i] == BindOne(c, texts, who, comments[i])
  {
    seq(|comments|, i requires 0 <= i < |comments| => BindOne(c, texts, who, comments[i]))
  }

  // ---- What the surfaces must show -----------------------------------------------------------------

  /** One of the accounts that Codex writes with. */
  ghost predicate Codex(login: string) {
    || login == "chatgpt-codex-connector" || login == "chatgpt-codex-connector[bot]"
    || login == "openai-codex" || login == "openai-codex[bot]"
  }

  /** Position `i` holds the latest Ready event, the first listed of several. */
  ghost predicate LastReady(events: seq<ReadyEvent>, i: nat) {
    && i < |events|
    && forall j :: 0 <= j < |events| ==>
      events[j].createdAt < events[i].createdAt || (events[j].createdAt == events[i].createdAt && i <= j)
  }

  ghost predicate Pending(reviews: seq<Review>, head: string) {
    exists r :: r in reviews && Codex(r.login) && r.commitId == head && r.state == "PENDING"
  }

  /** `x` asks for a review of the current Ready cycle. */
  ghost predicate Command(c: Collected, texts: Texts, x: Comment) {
    x in c.comments && texts.isCommand(x.body) && forall e :: e in c.readyEvents ==> e.createdAt <= x.createdAt
  }

  ghost predicate Requested(c: Collected, texts: Texts, who: Requesters, x: Comment) {
    Command(c, texts, x) && who.trusted(x.login)
  }

  /** A row answers the trigger at `start`: the latest request, or the latest Ready event when nothing was
      requested since. */
  ghost predicate Answers(c: Collected, texts: Texts, who: Requesters, row: Row, start: int) {
    match row.trigger
    case ManualRequest =>
      && (exists x :: Requested(c, texts, who, x) && x.createdAt == start)
      && (forall x :: Requested(c, texts, who, x) ==> x.createdAt <= start)
    case DraftMarkedReady =>
      && (forall x :: !Requested(c, texts, who, x))
      && (exists i: nat :: LastReady(c.readyEvents, i) && c.readyEvents[i].createdAt == start)
    case OtherTrigger => false
  }

  /** A review of the head that was submitted since the trigger. */
  ghost predicate InRound(r: Review, head: string, start: int) {
    Codex(r.login) && r.commitId == head && r.submittedAt.Some? && start <= r.submittedAt.value
  }

  ghost predicate SoleReview(reviews: seq<Review>, head: string, start: int, i: nat) {
    && i < |reviews| && InRound(reviews[i], head, start)
    && forall j :: 0 <= j < |reviews| && InRound(reviews[j], head, start) ==> j == i
  }

  /** The review is a terminal one by `login`, submitted no later than `completed`. */
  ghost predicate EndsRound(r: Review, login: string, completed: int) {
    && (r.state == "APPROVED" || r.state == "COMMENTED") && r.login == login
    && r.submittedAt.Some? && r.submittedAt.value <= completed
  }

  /** A thumbs-up by `login` on this pull request, after the trigger and no earlier than the completion. */
  ghost predicate Cheers(r: Reaction, login: string, repo: string, pr: int, start: int, completed: int) {
    && Codex(r.login) && r.login == login && r.content == "+1"
    && r.targetRepo == repo && r.targetPr == pr && start < r.createdAt && completed <= r.createdAt
  }

  ghost predicate SoleCheer(reactions: seq<Reaction>, login: string, repo: string, pr: int, start: int, completed: int, i: nat) {
    && i < |reactions| && Cheers(reactions[i], login, repo, pr, start, completed)
    && forall j :: 0 <= j < |reactions| && Cheers(reactions[j], login, repo, pr, start, completed) ==> j == i
  }

  /** How the round of `b` ended, among these reviews and reactions: with one review, terminal and in time,
      or with no review and one thumbs-up. */
  ghost predicate RoundEnded(reviews: seq<Review>, reactions: seq<Reaction>, login: string, repo: string, pr: int, head: string, b: Binding) {
    match b.kind
    case ByReview(id) =>
      exists i: nat :: SoleReview(reviews, head, b.triggerAt, i)
        && reviews[i].id == id && EndsRound(reviews[i], login, b.completedAt)
    case ByReaction(id) =>
      && (forall r :: r in reviews ==> !InRound(r, head, b.triggerAt))
      && (exists i: nat :: SoleCheer(reactions, login, repo, pr, b.triggerAt, b.completedAt, i) && reactions[i].id == id)
  }

  /** A comment of `login` with this body is bound to `b`: nothing keeps the binder from binding, its row
      names the head and answers a trigger of the latest Ready cycle, nobody signals work since, and the
      round ended. */
  ghost predicate Binds(c: Collected, texts: Texts, who: Requesters, login: string, body: string, b: Binding) {
    && !Pending(c.reviews, c.head) && ((exists x :: Command(c, texts, x)) ==> who.known)
    && b.head == c.head && (exists i: nat :: LastReady(c.readyEvents, i) && b.readyEventId == c.readyEvents[i].id)
    && texts.row(body).Some? && texts.row(body).value.completed == Some(b.completedAt)
    && texts.resolve(texts.row(body).value.ref) == c.head
    && Answers(c, texts, who, texts.row(body).value, b.triggerAt) && b.triggerAt <= b.completedAt
    && (forall r :: r in c.reactions && Codex(r.login) && r.content == "eyes" ==> r.createdAt < b.triggerAt)
    && RoundEnded(c.reviews, c.reactions, login, c.repo, c.pr, c.head, b)
  }

  lemma CodexIff(login: string)
    ensures login in CODEX_LOGINS <==> Codex(login)
  {}

  lemma {:induction false} LatestIsLast(events: seq<ReadyEvent>) returns (i: nat)
    requires events != []
    ensures LastReady(events, i) && Latest(events) == events[i]
    ensures forall j: nat :: LastReady(events, j) ==> j == i
  {
    if |events| == 1 {
      i := 0;
    } else {
      var k := LatestIsLast(events[1..]);
      assert forall j :: 0 < j < |events| ==> events[j] == events[1..][j - 1];
      i := if events[0].createdAt >= events[1..][k].createdAt then 0 else k + 1;
    }
  }

  lemma PendingIff(reviews: seq<Review>, head: string)
    ensures PendingReview(reviews, head) <==> Pending(reviews, head)
  {
    forall r: Review ensures r.login in CODEX_LOGINS <==> Codex(r.login) { CodexIff(r.login); }
  }

  lemma CommandsIff(c: Collected, texts: Texts, who: Requesters, x: Comment)
    requires c.readyEvents != []
    ensures x in ManualCommands(c, texts) <==> Command(c, texts, x)
    ensures x in Requests(c, texts, who) <==> Requested(c, texts, who, x)
  {}

  lemma ClosedIff(c: Collected, texts: Texts, who: Requesters)
    ensures BindingClosed(c, texts, who) <==>
      c.readyEvents == [] || Pending(c.reviews, c.head) || ((exists x :: Command(c, texts, x)) && !who.known)
  {
    hide PendingReview, ManualCommands, Pending;
    PendingIff(c.reviews, c.head);
    if c.readyEvents != [] {
      var commands := ManualCommands(c, texts);
      forall x ensures x in commands <==> Command(c, texts, x) { CommandsIff(c, texts, who, x); }
      if commands != [] { assert commands[0] in commands; }
    }
  }

  lemma TriggerIff(c: Collected, texts: Texts, who: Requesters, row: Row, start: int)
    requires c.readyEvents != [] && row.completed.Some?
    ensures TriggerTime(c, texts, who, row) == Some(start) && start <= row.completed.value
      <==> Answers(c, texts, who, row, start) && start <= row.completed.value
  {
    hide Requests, Requested, LastReady;
    var requests := Requests(c, texts, who);
    forall x ensures x in requests <==> Requested(c, texts, who, x) { CommandsIff(c, texts, who, x); }
    if requests != [] { assert requests[0] in requests; }
    var i := LatestIsLast(c.readyEvents);
  }

  lemma ReviewsIff(reviews: seq<Review>, head: string, start: int)
    ensures forall r :: r in CurrentReviews(reviews, head, start) <==> r in reviews && InRound(r, head, start)
    ensures forall i: nat :: SoleReview(reviews, head, start, i) ==> CurrentReviews(reviews, head, start) == [reviews[i]]
    ensures |CurrentReviews(reviews, head, start)| == 1 ==>
      exists i: nat :: SoleReview(reviews, head, start, i) && CurrentReviews(reviews, head, start) == [reviews[i]]
  {
    hide Codex;
    forall r: Review ensures r.login in CODEX_LOGINS <==> Codex(r.login) { CodexIff(r.login); }
    var p := (r: Review) => r.login in CODEX_LOGINS && r.commitId == head && r.submittedAt.Some? && r.submittedAt.value >= start;
    forall i: nat | SoleReview(reviews, head, start, i) ensures Filter(reviews, p) == [reviews[i]] { SoleFilter(reviews, p, i); }
    if |Filter(reviews, p)| == 1 {
      var i := FilterSole(reviews, p);
      assert SoleReview(reviews, head, start, i);
    }
  }

  lemma CheersIff(reactions: seq<Reaction>, login: string, repo: string, pr: int, start: int, completed: int)
    ensures var clean := Filter(reactions, (r: Reaction) => CleanReaction(r, login, repo, pr, start, completed));
      && (forall i: nat :: SoleCheer(reactions, login, repo, pr, start, completed, i) ==> clean == [reactions[i]])
      && (|clean| == 1 ==> exists i: nat :: SoleCheer(reactions, login, repo, pr, start, completed, i) && clean == [reactions[i]])
  {
    forall r: Reaction ensures CleanReaction(r, login, repo, pr, start, completed) <==> Cheers(r, login, repo, pr, start, completed) {
      CodexIff(r.login);
    }
    hide Cheers, CleanReaction;
    var p := (r: Reaction) => CleanReaction(r, login, repo, pr, start, completed);
    forall i: nat | SoleCheer(reactions, login, repo, pr, start, completed, i) ensures Filter(reactions, p) == [reactions[i]] {
      SoleFilter(reactions, p, i);
    }
    if |Filter(reactions, p)| == 1 {
      var i := FilterSole(reactions, p);
      assert SoleCheer(reactions, login, repo, pr, start, completed, i);
    }
  }

  /** How the round ended, over the two filters the code makes. */
  lemma EndedIff(reviews: seq<Review>, reactions: seq<Reaction>, login: string, repo: string, pr: int, head: string, b: Binding)
    ensures var current := CurrentReviews(reviews, head, b.triggerAt);
      var clean := Filter(reactions, (r: Reaction) => CleanReaction(r, login, repo, pr, b.triggerAt, b.completedAt));
      RoundEnded(reviews, reactions, login, repo, pr, head, b) <==>
        match b.kind
        case ByReview(id) => |current| == 1 && current[0].id == id && TerminalState(current[0].state) && current[0].login == login
          && current[0].submittedAt.Some? && current[0].submittedAt.value <= b.completedAt
        case ByReaction(id) => current == [] && |clean| == 1 && clean[0].id == id
  {
    hide CurrentReviews, CleanReaction, SoleReview, SoleCheer, InRound;
    ReviewsIff(reviews, head, b.triggerAt);
    CheersIff(reactions, login, repo, pr, b.triggerAt, b.completedAt);
    var current := CurrentReviews(reviews, head, b.triggerAt);
    if current != [] { assert current[0] in current; }
  }

  lemma NotClosed(c: Collected, texts: Texts, who: Requesters)
    requires !BindingClosed(c, texts, who)
    ensures c.readyEvents != []
  {}

  lemma BindingForIff(c: Collected, texts: Texts, who: Requesters, login: string, body: string, b: Binding)
    requires !BindingClosed(c, texts, who)
    ensures BindingFor(c, texts, who, login, body) == Some(b) <==> Binds(c, texts, who, login, body, b)
  {
    hide TriggerTime, CurrentReviews, CleanReaction, RoundEnded, Answers, Pending, Command, BindingClosed, TerminalState, LastReady;
    ClosedIff(c, texts, who);
    NotClosed(c, texts, who);
    var ready := LatestIsLast(c.readyEvents);
    forall r: Reaction ensures r.login in CODEX_LOGINS <==> Codex(r.login) { CodexIff(r.login); }
    if texts.row(body).Some? && texts.row(body).value.completed.Some? {
      TriggerIff(c, texts, who, texts.row(body).value, b.triggerAt);
      EndedIff(c.reviews, c.reactions, login, c.repo, c.pr, c.head, b);
      ReviewsIff(c.reviews, c.head, b.triggerAt);
    }
  }

  /** When the binder must bind a comment, and to what, on the raw surfaces. */
  lemma BindingIff(c: Collected, texts: Texts, who: Requesters, comment: Comment, b: Binding)
    ensures BindOne(c, texts, who, comment).binding == Some(b) <==> Binds(c, texts, who, comment.login, comment.body, b)
  {
    hide BindingClosed, BindingFor, Pending, Command, Answers, RoundEnded;
    ClosedIff(c, texts, who);
    if !BindingClosed(c, texts, who) { BindingForIff(c, texts, who, comment.login, comment.body, b); }
  }

  /** One summary per Codex comment, in order, with its id, author, text and last update, and bound exactly
      when the comment must be, to exactly that. */
  ghost predicate BindsAll(c: Collected, texts: Texts, who: Requesters, summaries: seq<Summary>) {
    var own := Filter(c.comments, (k: Comment) => Codex(k.login));
    && |summaries| == |own|
    && (forall i :: 0 <= i < |own| ==>
          && summaries[i].id == own[i].id && summaries[i].login == own[i].login
          && summaries[i].body == own[i].body && summaries[i].updatedAt == own[i].updatedAt)
    && (forall i, b :: 0 <= i < |own| ==> (summaries[i].binding == Some(b) <==> Binds(c, texts, who, own[i].login, own[i].body, b)))
  }

  /** The binder over all comments: one summary per Codex comment, bound when its comment is. */
  lemma BindAllMeans(c: Collected, texts: Texts, who: Requesters)
    ensures BindsAll(c, texts, who, BindAll(c, texts, who, CodexComments(c.comments)))
  {
    hide BindingFor, BindingClosed, Binds, Codex;
    forall k: Comment ensures k.login in CODEX_LOGINS <==> Codex(k.login) { CodexIff(k.login); }
    FilterSame(c.comments, (k: Comment) => k.login in CODEX_LOGINS, (k: Comment) => Codex(k.login));
    var own := CodexComments(c.comments);
    forall i, b | 0 <= i < |own| ensures BindOne(c, texts, who, own[i]).binding == Some(b) <==> Binds(c, texts, who, own[i].login, own[i].body, b) {
      BindingIff(c, texts, who, own[i], b);
    }
  }

  /** `_bind_summaries` */
  method BindSummaries(c: Collected, texts: Texts, who: Requesters) returns (summaries: seq<Summary>)
    ensures summaries == BindAll(c, texts, who, CodexComments(c.comments))
    ensures BindsAll(c, texts, who, summaries)
  {
    hide BindingFor, BindingClosed, BindsAll;
    BindAllMeans(c, texts, who);
    var own := CodexComments(c.comments);
    ghost var all := BindAll(c, texts, who, own);
    assert forall i :: 0 <= i < |own| ==> all[i] == BindOne(c, texts, who, own[i]);
    summaries := seq(|own|, i requires 0 <= i < |own| => Unbound(own[i]));
    if BindingClosed(c, texts, who) {
      assert forall i :: 0 <= i < |own| ==> summaries[i] == all[i];
      return;
    }
    NotClosed(c, texts, who);
    for i := 0 to |summaries|
      invariant |summaries| == |own|
      invariant forall k :: 0 <= k < i ==> summaries[k] == all[k]
      invariant forall k :: i <= k < |own| ==> summaries[k] == Unbound(own[k])
    {
      var binding := BindingFor(c, texts, who, summaries[i].login, summaries[i].body);
      if binding.Some? {
        summaries := summaries[i := summaries[i].(binding := binding)];
      }
    }
    assert summaries == all;
  }

  // ---- The evaluator ---------------------------------------------------------------------------------

  datatype Verdict =
    | Unavailable | StaleSubject | PendingCodex | PendingRequiredCi | MaterialFindings | ReadyForDecision

  /** `open` lists the material findings without a verified disposition for the head. */
  datatype Evidence = Evidence(
    revalidated: bool, repo: string, pr: int, head: string, base: string, state: string, draft: bool, merged: bool,
    checks: Checks.Verdict, reviews: seq<Review>, readyEvents: seq<ReadyEvent>, summaries: seq<Summary>,
    reactions: seq<Reaction>, openFindings: nat)

  datatype Expected = Expected(repo: string, pr: int, head: string, base: string)

  /** `_is_codex_summary` with the summary's own binding ids. */
  predicate IsCodexSummary(s: Summary, texts: Texts, head: string, readyEventId: int) {
    && s.login in CODEX_LOGINS && texts.passes(s.body)
    && s.binding.Some? && s.binding.value.head == head && s.binding.value.readyEventId == readyEventId
  }

  function TerminalReviews(reviews: seq<Review>, head: string): seq<Review> {
    Filter(reviews, (r: Review) => r.login in CODEX_LOGINS && r.commitId == head && TerminalState(r.state))
  }

  /** The gates before any Codex evidence is looked at. */
  function Gate(e: Evidence, x: Expected): Option<Verdict> {
    if !e.revalidated then Some(Unavailable)
    else if e.repo != x.repo || e.pr != x.pr || e.head != x.head || e.base != x.base then Some(StaleSubject)
    else if e.state != "open" || e.merged then Some(StaleSubject)
    else if e.draft then Some(PendingCodex)
    else if e.checks == Checks.Malformed then Some(Unavailable)
    else if e.checks != Checks.Passing then Some(PendingRequiredCi)
    else None
  }

  predicate ActiveSignal(r: Reaction, x: Expected, start: int) {
    && r.login in CODEX_LOGINS && r.content == "eyes"
    && r.targetRepo == x.repo && r.targetPr == x.pr && r.createdAt >= start
  }

  /** The rechecks of one uniquely bound summary; `None` when all pass. */
  function Recheck(e: Evidence, x: Expected, s: Summary, readyTime: int): Option<Verdict>
    requires s.binding.Some?
  {
    var b := s.binding.value;
    var start, completed := b.triggerAt, b.completedAt;
    if start < readyTime || completed < start then Some(PendingCodex)
    else if exists r :: r in e.reactions && ActiveSignal(r, x, start) then Some(PendingCodex)
    else
      var current := CurrentReviews(e.reviews, x.head, start);
      match b.kind
      case ByReview(id) =>
        if |current| != 1 || current[0].id != id || current[0].login != s.login || !TerminalState(current[0].state)
           || (assert current[0] in current; current[0].submittedAt.value > completed)
           || s.updatedAt < current[0].submittedAt.value
        then Some(PendingCodex) else None
      case ByReaction(id) =>
        var clean := Filter(e.reactions, (r: Reaction) => CleanReaction(r, s.login, x.repo, x.pr, start, completed));
        if current != [] || |clean| != 1 || clean[0].id != id then Some(PendingCodex) else None
  }

  /** `_evaluate_live` on well-shaped evidence. */
  function Evaluate(e: Evidence, x: Expected, texts: Texts): Verdict {
    match Gate(e, x)
    case Some(v) => v
    case None =>
      if e.readyEvents == [] then Unavailable
      else if PendingReview(e.reviews, x.head) then PendingCodex
      else
        var ready := Latest(e.readyEvents);
        var summaries := Filter(e.summaries, (s: Summary) => IsCodexSummary(s, texts, x.head, ready.id));
        if summaries == [] then
          var terminal := TerminalReviews(e.reviews, x.head);
          if terminal != [] && (forall r :: r in terminal && r.submittedAt.Some? ==> r.submittedAt.value < ready.createdAt)
          then StaleSubject else PendingCodex
        else if |summaries| != 1 then Unavailable
        else
          assert summaries[0] in summaries;
          match Recheck(e, x, summaries[0], ready.createdAt)
          case Some(v) => v
          case None => if e.openFindings > 0 then MaterialFindings else ReadyForDecision
  }
}
