// Delivery of one run's event log over a server-sent event stream.
module RunEvents {
  import opened Prelude
  import opened RunRecords
  import opened RunInvariants

  const PAGE_LIMIT := 100

  datatype Frame = RunFrame(event: Event) | KeepAlive

  // Returned: the generator finished.  Disconnected: the client stopped reading.
  datatype Ending = Returned | Disconnected

  // What one read of the store shows of the streamed run.
  datatype View = View(status: Status, log: seq<Event>)

  function ViewOf(db: Db, id: RunId): View
    requires id in db.runs
  {
    View(db.runs[id].status, LogOf(db, id))
  }

  function EventsOf(frames: seq<Frame>): seq<Event> {
    if frames == [] then []
    else
      var init := EventsOf(frames[..|frames| - 1]);
      match frames[|frames| - 1]
      case RunFrame(event) => init + [event]
      case KeepAlive => init
  }

  // The Last-Event-ID a client holds after these events.
  function LastId(events: seq<Event>, after: nat): nat {
    if events == [] then after else events[|events| - 1].sequence
  }

  ghost predicate ViewLater(v: View, w: View) {
    v.log <= w.log && (Terminal(v.status) ==> w == v)
  }

  // Successive reads of one run while writers keep committing.
  ghost predicate Observed(views: seq<View>) {
    && (forall k | 0 <= k < |views| :: Numbered(views[k].log))
    && (forall j, k | 0 <= j <= k < |views| :: ViewLater(views[j], views[k]))
  }

  // However transactions interleave with the reads, the reads are Observed.
  lemma {:induction false} InterleavingIsObserved(dbs: seq<Db>, between: seq<seq<Op>>, id: RunId)
    requires dbs != [] && |between| == |dbs| - 1 && Valid(dbs[0]) && id in dbs[0].runs
    requires forall k | 0 < k < |dbs| :: dbs[k] == ApplyAll(dbs[k - 1], between[k - 1])
    ensures forall k | 0 <= k < |dbs| :: Valid(dbs[k]) && id in dbs[k].runs
    ensures Observed(seq(|dbs|, k requires 0 <= k < |dbs| && id in dbs[k].runs => ViewOf(dbs[k], id)))
  {
    ChainIsLater(dbs, between, id, |dbs| - 1);
  }

  lemma {:induction false} ChainIsLater(dbs: seq<Db>, between: seq<seq<Op>>, id: RunId, last: nat)
    requires last < |dbs| == |between| + 1 && Valid(dbs[0]) && id in dbs[0].runs
    requires forall k | 0 < k < |dbs| :: dbs[k] == ApplyAll(dbs[k - 1], between[k - 1])
    ensures forall k | 0 <= k <= last :: Valid(dbs[k]) && id in dbs[k].runs && Numbered(LogOf(dbs[k], id))
    ensures forall j, k | 0 <= j <= k <= last :: ViewLater(ViewOf(dbs[j], id), ViewOf(dbs[k], id))
  {
    hide Valid, Later, Numbered, ViewOf, ViewLater, ApplyAll;
    if last == 0 {
      ValidLog(dbs[0], id);
      SameView(dbs[0], id);
    } else {
      ChainIsLater(dbs, between, id, last - 1);
      HistoryMovesForward(dbs[last - 1], between[last - 1]);
      NextView(dbs[last - 1], dbs[last], id);
      ValidLog(dbs[last], id);
      forall j | 0 <= j < last
        ensures ViewLater(ViewOf(dbs[j], id), ViewOf(dbs[last], id))
      {
        ViewTransitive(ViewOf(dbs[j], id), ViewOf(dbs[last - 1], id), ViewOf(dbs[last], id));
      }
      SameView(dbs[last], id);
    }
  }

  lemma ValidLog(db: Db, id: RunId)
    requires Valid(db) && id in db.runs
    ensures Numbered(LogOf(db, id))
  {
  }

  lemma SameView(db: Db, id: RunId)
    requires id in db.runs
    ensures ViewLater(ViewOf(db, id), ViewOf(db, id))
  {
  }

  lemma NextView(a: Db, b: Db, id: RunId)
    requires Later(a, b) && id in a.runs
    ensures id in b.runs && ViewLater(ViewOf(a, id), ViewOf(b, id))
  {
  }

  lemma ViewTransitive(u: View, v: View, w: View)
    requires ViewLater(u, v) && ViewLater(v, w)
    ensures ViewLater(u, w)
  {
  }

  // Rows already delivered are a prefix of what any later log holds after the same cursor.
  lemma AfterGrows(log: seq<Event>, log': seq<Event>, after: nat)
    requires Numbered(log) && Numbered(log') && log <= log'
    ensures After(log, after) <= After(log', after)
  {
    AfterNumbered(log, after);
    AfterNumbered(log', after);
  }

  // Continuing after a delivered prefix is continuing from its last id.
  lemma ResumePoint(log: seq<Event>, after: nat, sent: seq<Event>)
    requires Numbered(log) && sent <= After(log, after)
    ensures After(log, after) == sent + After(log, LastId(sent, after))
  {
    AfterNumbered(log, after);
    AfterNumbered(log, LastId(sent, after));
  }

  // One more piece of the log extends what was delivered.
  lemma PageExtends(log: seq<Event>, after: nat, sent: seq<Event>, page: seq<Event>)
    requires Numbered(log) && sent <= After(log, after)
    requires page <= After(log, LastId(sent, after))
    ensures sent + page <= After(log, after)
    ensures LastId(sent + page, after) == LastId(page, LastId(sent, after))
  {
    ResumePoint(log, after, sent);
  }

  // The inner loop: forward one page until the client has `stopAfter` events.
  method SendPage(frames: seq<Frame>, delivered: nat, cursor: nat, page: seq<Event>, stopAfter: nat, ghost after: nat)
    returns (frames': seq<Frame>, delivered': nat, cursor': nat, open: bool)
    requires delivered == |EventsOf(frames)| < stopAfter && cursor == LastId(EventsOf(frames), after)
    ensures exists n :: 0 <= n <= |page| && EventsOf(frames') == EventsOf(frames) + page[..n] && (open ==> n == |page|)
    ensures delivered' == |EventsOf(frames')|
    ensures cursor' == LastId(EventsOf(frames'), after)
    ensures open <==> delivered' < stopAfter
  {
    frames', delivered', cursor' := frames, delivered, cursor;
    var next := 0;
    while next < |page|
      invariant 0 <= next <= |page|
      invariant EventsOf(frames') == EventsOf(frames) + page[..next]
      invariant cursor' == LastId(EventsOf(frames'), after)
      invariant delivered' == |EventsOf(frames')| < stopAfter
    {
      cursor' := page[next].sequence;
      frames' := frames' + [RunFrame(page[next])];
      next, delivered' := next + 1, delivered' + 1;
      assert page[..next] == page[..next - 1] + [page[next - 1]];
      if delivered' >= stopAfter {
        return frames', delivered', cursor', false;
      }
    }
    return frames', delivered', cursor', true;
  }

  ghost predicate Delivered(views: seq<View>, k: nat, after: nat, sent: seq<Event>) {
    forall j | k <= j < |views| :: sent <= After(views[j].log, after)
  }

  lemma DeliveredSurvives(views: seq<View>, k: nat, after: nat, sent: seq<Event>)
    requires Observed(views) && k < |views| && sent <= After(views[k].log, after)
    ensures Delivered(views, k, after, sent)
  {
    forall j | k <= j < |views|
      ensures sent <= After(views[j].log, after)
    {
      assert ViewLater(views[k], views[j]);
      AfterGrows(views[k].log, views[j].log, after);
    }
  }

  lemma CompleteWhenCaughtUp(views: seq<View>, k: nat, after: nat, sent: seq<Event>)
    requires Observed(views) && k < |views| && sent <= After(views[k].log, after)
    requires Terminal(views[k].status) && LastId(sent, after) >= MaxSequence(views[k].log)
    ensures Terminal(views[|views| - 1].status)
    ensures sent == After(views[|views| - 1].log, after)
  {
    assert ViewLater(views[k], views[|views| - 1]);
    MaxOfNumbered(views[k].log);
    ResumePoint(views[k].log, after, sent);
    AfterNumbered(views[k].log, LastId(sent, after));
  }

  // Once the run is terminal both reads of a poll agree, so a poll that does
  // not return has read a full page.
  lemma FullPageWhenSettled(first: View, second: View, cursor: nat, page: seq<Event>)
    requires Numbered(first.log) && ViewLater(first, second) && Terminal(first.status)
    requires page == Page(first.log, cursor, PAGE_LIMIT)
    requires LastId(page, cursor) < MaxSequence(second.log)
    ensures |page| == PAGE_LIMIT
  {
    MaxOfNumbered(first.log);
    AfterNumbered(first.log, cursor);
  }

  // The generator.  `views` supplies what its store reads observe in turn; the
  // client disconnects after `stopAfter` events or when `views` run out.
  // `settled` names a read that already sees a terminal run.
  method StreamRunEvents(views: seq<View>, after: nat, stopAfter: nat, heartbeatDue: seq<bool>, ghost settled: nat)
    returns (frames: seq<Frame>, ending: Ending)
    requires Observed(views) && views != [] && stopAfter > 0 && |heartbeatDue| == |views|
    requires settled < |views| ==> Terminal(views[settled].status)
    // Exactly the next events of the log, in order, without gap or duplicate.
    ensures EventsOf(frames) <= After(views[|views| - 1].log, after)
    // A stream that returned has delivered the whole of a finished log.
    ensures ending == Returned ==>
      Terminal(views[|views| - 1].status) && EventsOf(frames) == After(views[|views| - 1].log, after)
    // A stream over a finished run returns unless each further poll delivers a full page.
    ensures ending == Disconnected ==>
      |EventsOf(frames)| >= stopAfter || |EventsOf(frames)| >= PAGE_LIMIT * (|views| / 2 - (settled + 1) / 2)
  {
    hide After, Page, Observed, Delivered, ViewLater, MaxSequence, EventsOf;
    var cursor := after;
    frames := [];
    var poll, delivered := 0, 0;
    StreamStarts(views, after, settled);
    while 2 * poll + 1 < |views|
      invariant 0 <= 2 * poll <= |views|
      invariant Streaming(views, poll, after, settled, EventsOf(frames))
      invariant cursor == LastId(EventsOf(frames), after)
      invariant delivered == |EventsOf(frames)| < stopAfter
      decreases |views| - 2 * poll
    {
      var page := Page(views[2 * poll].log, cursor, PAGE_LIMIT);
      ghost var before := EventsOf(frames);
      var open;
      frames, delivered, cursor, open := SendPage(frames, delivered, cursor, page, stopAfter, after);
      PieceDelivered(views, 2 * poll, after, before, page, EventsOf(frames));
      if !open {
        return frames, Disconnected;
      }
      var current := views[2 * poll + 1];
      if Terminal(current.status) && cursor >= MaxSequence(current.log) {
        CompleteWhenCaughtUp(views, 2 * poll + 1, after, EventsOf(frames));
        return frames, Returned;
      }
      PollContinues(views, poll, after, settled, before, page);
      if heartbeatDue[poll] {
        KeepAliveAddsNothing(frames);
        frames := frames + [KeepAlive];
      }
      poll := poll + 1;
    }
    return frames, Disconnected;
  }

  ghost predicate Streaming(views: seq<View>, poll: nat, after: nat, settled: nat, sent: seq<Event>)
    requires views != []
  {
    && sent <= After(views[|views| - 1].log, after)
    && Delivered(views, 2 * poll, after, sent)
    && |sent| >= PAGE_LIMIT * (poll - (settled + 1) / 2)
  }

  lemma StreamStarts(views: seq<View>, after: nat, settled: nat)
    requires views != []
    ensures EventsOf([]) == [] && Streaming(views, 0, after, settled, [])
  {
  }

  lemma KeepAliveAddsNothing(frames: seq<Frame>)
    ensures EventsOf(frames + [KeepAlive]) == EventsOf(frames)
  {
    assert (frames + [KeepAlive])[..|frames|] == frames;
  }

  lemma PollContinues(views: seq<View>, poll: nat, after: nat, settled: nat, before: seq<Event>, page: seq<Event>)
    requires Observed(views) && 2 * poll + 1 < |views|
    requires settled < |views| ==> Terminal(views[settled].status)
    requires Streaming(views, poll, after, settled, before)
    requires page == Page(views[2 * poll].log, LastId(before, after), PAGE_LIMIT)
    requires var current := views[2 * poll + 1];
             !(Terminal(current.status) && LastId(before + page, after) >= MaxSequence(current.log))
    ensures Streaming(views, poll + 1, after, settled, before + page)
  {
    PieceDelivered(views, 2 * poll, after, before, page, before + page);
    if settled <= 2 * poll {
      assert ViewLater(views[settled], views[2 * poll]) && ViewLater(views[2 * poll], views[2 * poll + 1]);
      FullPageWhenSettled(views[2 * poll], views[2 * poll + 1], LastId(before, after), page);
    }
  }

  lemma PieceDelivered(views: seq<View>, k: nat, after: nat, before: seq<Event>, page: seq<Event>, sent: seq<Event>)
    requires Observed(views) && k < |views| && Delivered(views, k, after, before)
    requires page == Page(views[k].log, LastId(before, after), PAGE_LIMIT)
    requires sent == before + page || exists n :: 0 <= n <= |page| && sent == before + page[..n]
    ensures Delivered(views, k, after, sent) && sent <= After(views[|views| - 1].log, after)
    ensures sent == before + page ==> LastId(sent, after) == LastId(page, LastId(before, after))
  {
    assert page[..|page|] == page;
    var n :| 0 <= n <= |page| && sent == before + page[..n];
    PageExtends(views[k].log, after, before, page[..n]);
    DeliveredSurvives(views, k, after, sent);
    if sent == before + page {
      PageExtends(views[k].log, after, before, page);
    }
  }

  // What a poll reads is the store's answer for the state its view shows.
  lemma PollIsRead(db: Db, id: RunId, cursor: nat)
    requires Valid(db) && id in db.runs
    ensures ReadEvents(db, id, cursor, PAGE_LIMIT) == Success(Page(ViewOf(db, id).log, cursor, PAGE_LIMIT))
    ensures var log := ViewOf(db, id).log;
            Page(log, cursor, PAGE_LIMIT) == log[Min(cursor, |log|)..Min(cursor + PAGE_LIMIT, |log|)]
  {
    PageIsSlice(LogOf(db, id), cursor, PAGE_LIMIT);
  }

  // -- Reconnection --

  // A second stream that starts from the first one's last id, on later
  // states, continues the same delivery: nothing is lost or repeated.
  lemma ReconnectionContinues(earlier: View, later: View, after: nat, first: seq<Event>, second: seq<Event>)
    requires Numbered(earlier.log) && Numbered(later.log) && ViewLater(earlier, later)
    requires first <= After(earlier.log, after)
    requires second <= After(later.log, LastId(first, after))
    ensures first + second <= After(later.log, after)
    ensures second == After(later.log, LastId(first, after)) ==> first + second == After(later.log, after)
    ensures LastId(first + second, after) == LastId(second, LastId(first, after))
  {
    AfterGrows(earlier.log, later.log, after);
    ResumePoint(later.log, after, first);
    PageExtends(later.log, after, first, second);
  }

  // A complete delivery from a cursor inside a finished log is numbered
  // consecutively from that cursor and ends with the one terminal event.
  lemma FinishedDelivery(log: seq<Event>, phase: Phase, after: nat)
    requires Numbered(log) && Replay(log) == Some(phase) && Terminal(phase.status) && after < |log|
    ensures var events := After(log, after);
            && events == log[after..]
            && (forall i | 0 <= i < |events| :: events[i].sequence == after + i + 1)
            && (forall i | 0 <= i < |events| :: Terminal(events[i].status) <==> i == |events| - 1)
            && events[|events| - 1].status == phase.status
  {
    hide Replay, After;
    AfterNumbered(log, after);
    ReplayShape(log);
    LastIsTerminal(log);
  }

  lemma LastIsTerminal(log: seq<Event>)
    requires log != [] && LogShape(log) && Terminal(log[|log| - 1].status)
    ensures forall i | 0 <= i < |log| :: Terminal(log[i].status) <==> i == |log| - 1
  {
  }
}
