/** The ticket list of the report (update-issues.go, lines 16-28 and 82-171):
    one pass over the fetched issues that drops pull requests, issues created
    before tracking started and the excluded issue, and turns every other
    issue into a display ticket, in fetch order. */
module Tickets {
  import opened Wrappers
  import opened Ascii
  import opened CloseDuration

  /** 2022-04-08 00:00 UTC, in nanoseconds since the Unix epoch: issues
      created earlier predate the tracking and are left out. */
  const TrackingStart: int := 1_649_376_000 * 1_000_000_000

  /** The one issue number the report always leaves out. */
  const ExcludedNumber: int := 62

  /** A comment on an issue; only its creation instant matters here. */
  datatype Comment = Comment(author: string, createdAt: int)

  /** An issue as the tracker lists it. Instants are nanoseconds since the
      Unix epoch; `isPullRequest` stands for a non-nil pull-request link. */
  datatype Issue = Issue(
    number: int,
    title: string,
    state: string,
    htmlUrl: string,
    comments: int,
    createdAt: int,
    closedAt: Option<int>,
    isPullRequest: bool)

  /** What listing the comments of one issue returned. */
  datatype CommentsReply = Listed(comments: seq<Comment>) | ListFailed(message: string)

  /** One row of the report. */
  datatype Ticket = Ticket(
    title: string,
    state: string,
    url: string,
    numComments: int,
    timeToFirstTouch: string,
    timeToClose: string,
    createdAt: string)

  /** What the page template is given. */
  datatype PageData = PageData(tickets: seq<Ticket>)

  /** The three tests an issue must pass to become a ticket, in the order
      the loop applies them; the creation test is Go's
      `CreatedAt.Sub(start) < 0`, so an issue created at the start instant
      itself is kept. */
  predicate Keep(i: Issue): (keep: bool)
    ensures keep <==> !i.isPullRequest && i.createdAt >= TrackingStart && i.number != ExcludedNumber
  {
    if i.isPullRequest then false
    else if i.createdAt - TrackingStart < 0 then false
    else i.number != ExcludedNumber
  }

  /** `TimeToFirstTouch`: the time from creation to the first comment in the
      order the comments were listed, or empty when there is none. */
  function FirstTouch(i: Issue, comments: seq<Comment>, formatDuration: int -> string): string {
    if comments == [] then "" else formatDuration(comments[0].createdAt - i.createdAt)
  }

  /** Only the first listed comment matters: two listings that start with
      the same comment give the same first touch, whatever follows. */
  lemma FirstTouchFirstListed(i: Issue, comments: seq<Comment>, others: seq<Comment>,
                              formatDuration: int -> string)
    requires comments != [] && others != [] && comments[0] == others[0]
    ensures FirstTouch(i, comments, formatDuration) == FirstTouch(i, others, formatDuration)
    ensures FirstTouch(i, comments, formatDuration) == FirstTouch(i, comments[..1], formatDuration)
  {
  }

  /** The first touch is not the earliest comment: with a later comment
      listed before an earlier one, the later one is measured. */
  lemma FirstTouchNotEarliest(formatDuration: int -> string)
    ensures var i := Issue(1, "t", "open", "u", 2, 0, None, false);
            var late := Comment("a", 20);
            var early := Comment("b", 10);
            FirstTouch(i, [late, early], formatDuration) == formatDuration(20) &&
            FirstTouch(i, [early, late], formatDuration) == formatDuration(10)
  {
  }

  /** The ticket built for a retained issue from its listed comments;
      `formatStamp` and `formatDuration` stand for Go's calendar and duration
      formatting. */
  function TicketFor(i: Issue, comments: seq<Comment>,
                     formatStamp: int -> string, formatDuration: int -> string): Ticket
  {
    Ticket(i.title, ToUpper(i.state), i.htmlUrl, i.comments,
           FirstTouch(i, comments, formatDuration),
           ClosePhrase(i.createdAt, i.closedAt),
           formatStamp(i.createdAt))
  }

  /** What the loop yields after the issues listed so far: the tickets of
      the retained ones, or the message of the first comment listing that
      failed, which ends the run. `replies[j]` is what listing the comments
      of `issues[j]` returns; it is consulted only for retained issues. */
  function Collected(issues: seq<Issue>, replies: seq<CommentsReply>,
                     formatStamp: int -> string, formatDuration: int -> string): (r: Result<seq<Ticket>, string>)
    requires |replies| == |issues|
    ensures r.Success? ==> |r.value| <= |issues|
    decreases |issues|
  {
    if issues == [] then Success([])
    else
      var n := |issues| - 1;
      match Collected(issues[..n], replies[..n], formatStamp, formatDuration)
      case Failure(e) => Failure(e)
      case Success(ts) =>
        if !Keep(issues[n]) then Success(ts)
        else
          match replies[n]
          case ListFailed(m) => Failure(m)
          case Listed(cs) => Success(ts + [TicketFor(issues[n], cs, formatStamp, formatDuration)])
  }

  /** The positions of the retained issues, in increasing order: exactly
      the positions whose issue passes `Keep`. */
  function RetainedIndices(issues: seq<Issue>): (idx: seq<nat>)
    ensures |idx| <= |issues|
    ensures forall k :: 0 <= k < |idx| ==> idx[k] < |issues| && Keep(issues[idx[k]])
    ensures forall k, l :: 0 <= k < l < |idx| ==> idx[k] < idx[l]
    ensures forall j :: 0 <= j < |issues| && Keep(issues[j]) ==> j in idx
  {
    if issues == [] then []
    else
      var n := |issues| - 1;
      RetainedIndices(issues[..n]) + (if Keep(issues[n]) then [n] else [])
  }

  /** The loop fails exactly when the comment listing of some retained
      issue fails. */
  lemma {:induction false} CollectedSucceeds(issues: seq<Issue>, replies: seq<CommentsReply>,
                                              formatStamp: int -> string, formatDuration: int -> string)
    requires |replies| == |issues|
    ensures Collected(issues, replies, formatStamp, formatDuration).Success? <==>
            forall j :: 0 <= j < |issues| && Keep(issues[j]) ==> replies[j].Listed?
  {
    if issues != [] {
      var n := |issues| - 1;
      CollectedSucceeds(issues[..n], replies[..n], formatStamp, formatDuration);
      assert forall j :: 0 <= j < n ==> issues[..n][j] == issues[j] && replies[..n][j] == replies[j];
    }
  }

  /** On success there is one ticket per retained issue, in the order of
      the issues, each built from that issue and its own comment listing. */
  lemma {:induction false} CollectedTickets(issues: seq<Issue>, replies: seq<CommentsReply>,
                                             formatStamp: int -> string, formatDuration: int -> string)
    requires |replies| == |issues|
    requires Collected(issues, replies, formatStamp, formatDuration).Success?
    ensures var ts := Collected(issues, replies, formatStamp, formatDuration).value;
            var idx := RetainedIndices(issues);
            |ts| == |idx| <= |issues| &&
            forall k :: 0 <= k < |idx| ==>
              replies[idx[k]].Listed? &&
              ts[k] == TicketFor(issues[idx[k]], replies[idx[k]].comments, formatStamp, formatDuration)
  {
    if issues != [] {
      var n := |issues| - 1;
      var earlier, earlierReplies := issues[..n], replies[..n];
      CollectedTickets(earlier, earlierReplies, formatStamp, formatDuration);
      var ts := Collected(earlier, earlierReplies, formatStamp, formatDuration).value;
      var idx := RetainedIndices(earlier);
      var all := Collected(issues, replies, formatStamp, formatDuration).value;
      var allIdx := RetainedIndices(issues);
      forall k | 0 <= k < |allIdx|
        ensures replies[allIdx[k]].Listed?
        ensures all[k] == TicketFor(issues[allIdx[k]], replies[allIdx[k]].comments, formatStamp, formatDuration)
      {
        if k < |idx| {
          assert allIdx[k] == idx[k] && all[k] == ts[k];
          assert earlier[idx[k]] == issues[idx[k]] && earlierReplies[idx[k]] == replies[idx[k]];
        } else {
          assert allIdx[k] == n && all[k] == TicketFor(issues[n], replies[n].comments, formatStamp, formatDuration);
        }
      }
    }
  }

  /** On failure the message is that of the first retained issue whose
      comment listing failed. */
  lemma {:induction false} CollectedFailure(issues: seq<Issue>, replies: seq<CommentsReply>,
                                             formatStamp: int -> string, formatDuration: int -> string)
    requires |replies| == |issues|
    requires Collected(issues, replies, formatStamp, formatDuration).Failure?
    ensures exists j :: 0 <= j < |issues| && Keep(issues[j]) &&
              replies[j] == ListFailed(Collected(issues, replies, formatStamp, formatDuration).error) &&
              forall j' :: 0 <= j' < j && Keep(issues[j']) ==> replies[j'].Listed?
  {
    var n := |issues| - 1;
    var prefix := Collected(issues[..n], replies[..n], formatStamp, formatDuration);
    assert forall j :: 0 <= j < n ==> issues[..n][j] == issues[j] && replies[..n][j] == replies[j];
    if prefix.Failure? {
      CollectedFailure(issues[..n], replies[..n], formatStamp, formatDuration);
      var j :| 0 <= j < n && Keep(issues[..n][j]) &&
               replies[..n][j] == ListFailed(prefix.error) &&
               forall j' :: 0 <= j' < j && Keep(issues[..n][j']) ==> replies[..n][j'].Listed?;
      assert Keep(issues[j]) && replies[j] == ListFailed(prefix.error);
    } else {
      CollectedSucceeds(issues[..n], replies[..n], formatStamp, formatDuration);
      assert Keep(issues[n]) && replies[n].ListFailed?;
    }
  }

  /** One more issue: what the pass yields after `k + 1` issues, given a
      success after `k`. */
  lemma CollectedStep(issues: seq<Issue>, replies: seq<CommentsReply>, k: nat,
                      formatStamp: int -> string, formatDuration: int -> string)
    requires |replies| == |issues| && k < |issues|
    requires Collected(issues[..k], replies[..k], formatStamp, formatDuration).Success?
    ensures var ts := Collected(issues[..k], replies[..k], formatStamp, formatDuration).value;
            Collected(issues[..k + 1], replies[..k + 1], formatStamp, formatDuration) ==
              if !Keep(issues[k]) then Success(ts)
              else if replies[k].ListFailed? then Failure(replies[k].message)
              else Success(ts + [TicketFor(issues[k], replies[k].comments, formatStamp, formatDuration)])
  {
    assert issues[..k + 1][..k] == issues[..k] && replies[..k + 1][..k] == replies[..k];
  }

  /** A successful pass is built up in order: after any number of issues
      the pass had succeeded too, and its tickets begin the final list. */
  lemma {:induction false} CollectedPrefix(issues: seq<Issue>, replies: seq<CommentsReply>, k: nat,
                                            formatStamp: int -> string, formatDuration: int -> string)
    requires |replies| == |issues| && k <= |issues|
    requires Collected(issues, replies, formatStamp, formatDuration).Success?
    ensures Collected(issues[..k], replies[..k], formatStamp, formatDuration).Success?
    ensures Collected(issues[..k], replies[..k], formatStamp, formatDuration).value <=
            Collected(issues, replies, formatStamp, formatDuration).value
  {
    if k < |issues| {
      var n := |issues| - 1;
      assert issues[..n][..k] == issues[..k] && replies[..n][..k] == replies[..k];
      CollectedPrefix(issues[..n], replies[..n], k, formatStamp, formatDuration);
    } else {
      assert issues[..k] == issues && replies[..k] == replies;
    }
  }

  /** A failure in a prefix is the failure of the whole pass. */
  lemma {:induction false} FailureIsFinal(issues: seq<Issue>, replies: seq<CommentsReply>, k: nat,
                                          formatStamp: int -> string, formatDuration: int -> string)
    requires |replies| == |issues| && k <= |issues|
    requires Collected(issues[..k], replies[..k], formatStamp, formatDuration).Failure?
    ensures Collected(issues, replies, formatStamp, formatDuration) ==
            Collected(issues[..k], replies[..k], formatStamp, formatDuration)
  {
    if k < |issues| {
      var n := |issues| - 1;
      assert issues[..n][..k] == issues[..k] && replies[..n][..k] == replies[..k];
      FailureIsFinal(issues[..n], replies[..n], k, formatStamp, formatDuration);
    } else {
      assert issues[..k] == issues && replies[..k] == replies;
    }
  }

  /** Field by field, a ticket shows its issue: the title, URL and comment
      count copied, the state upper-cased, "--" as time to close exactly
      when the issue is open, and the first touch taken from the first
      listed comment, empty when none was listed. */
  lemma TicketFields(i: Issue, comments: seq<Comment>,
                     formatStamp: int -> string, formatDuration: int -> string)
    ensures var t := TicketFor(i, comments, formatStamp, formatDuration);
            t.title == i.title && t.url == i.htmlUrl && t.numComments == i.comments &&
            t.state == ToUpper(i.state) &&
            (forall k :: 0 <= k < |t.state| ==> !IsLower(t.state[k])) &&
            (t.timeToClose == "--" <==> i.closedAt.None?) &&
            t.timeToClose != "" &&
            (comments == [] ==> t.timeToFirstTouch == "") &&
            (comments != [] ==> t.timeToFirstTouch == formatDuration(comments[0].createdAt - i.createdAt)) &&
            t.createdAt == formatStamp(i.createdAt)
  {
  }

  /** The body of the loop for a retained issue (lines 106-156): the ticket
      starts from the copied fields and the formatted creation stamp, gets
      its close phrase, and takes its first touch from the first listed
      comment, leaving the loop over the comments at once. */
  method BuildTicket(i: Issue, createdAt: string, comments: seq<Comment>,
                     ghost formatStamp: int -> string, formatDuration: int -> string)
    returns (newTicket: Ticket)
    requires createdAt == formatStamp(i.createdAt)
    ensures newTicket == TicketFor(i, comments, formatStamp, formatDuration)
  {
    newTicket := Ticket(i.title, ToUpper(i.state), i.htmlUrl, i.comments, "", "", createdAt);
    if i.closedAt.Some? {
      var h := RoundedHours(i.closedAt.value - i.createdAt);
      newTicket := newTicket.(timeToClose := HoursPhrase(h));
      ClosePhraseOfRounded(i.createdAt, i.closedAt.value, h);
    } else {
      newTicket := newTicket.(timeToClose := "--");
    }
    ghost var untouched := newTicket;
    for c := 0 to |comments|
      invariant c == 0 && newTicket == untouched
    {
      newTicket := newTicket.(timeToFirstTouch := formatDuration(comments[c].createdAt - i.createdAt));
      break;
    }
  }

  /** The loop of lines 85-160 and the page data built from its result
      (lines 169-171). A failed comment listing ends the run with its
      message, as the source's exit does. */
  method CollectTickets(issues: seq<Issue>, replies: seq<CommentsReply>,
                        formatStamp: int -> string, formatDuration: int -> string)
    returns (page: Result<PageData, string>)
    requires |replies| == |issues|
    ensures page == match Collected(issues, replies, formatStamp, formatDuration)
                    case Success(ts) => Success(PageData(ts))
                    case Failure(e) => Failure(e)
  {
    var tickets: seq<Ticket> := [];
    for k := 0 to |issues|
      invariant Collected(issues[..k], replies[..k], formatStamp, formatDuration) == Success(tickets)
    {
      CollectedStep(issues, replies, k, formatStamp, formatDuration);
      var i := issues[k];
      if i.isPullRequest {
        continue;
      }
      if i.createdAt - TrackingStart < 0 {
        continue;
      }
      if i.number == ExcludedNumber {
        continue;
      }
      var createdAt := formatStamp(i.createdAt);
      var reply := replies[k];
      if reply.ListFailed? {
        FailureIsFinal(issues, replies, k + 1, formatStamp, formatDuration);
        return Failure(reply.message);
      }
      var newTicket := BuildTicket(i, createdAt, reply.comments, formatStamp, formatDuration);
      tickets := tickets + [newTicket];
    }
    assert issues[..|issues|] == issues && replies[..|replies|] == replies;
    return Success(PageData(tickets));
  }
}
