/** What the aggregation loop of Allura2WPXML.__init__ (allura2wpxml.py:257-357)
    computes, stated as functions over the events it sees: which threads it
    counts, how many replies it adds up, and the running "last active"
    maxima of a topic and of a forum. Convert.Converter keeps its counters
    equal to these functions. */
module Stats {
  import opened Times
  import opened Source

  // ------------------------------------------------------------- thread choice

  /** The script parses the timestamp of a thread's last post (line 266)
      and aborts when there is none; every converted thread must pass. */
  predicate LastDated(t: Thread)
  {
    t.posts != [] ==> t.posts[|t.posts| - 1].timestamp.Some?
  }

  /** Every thread of the forum passes the parse of line 266. */
  predicate ForumDated(f: Forum)
  {
    forall t :: t in f.threads ==> LastDated(t)
  }

  /** A thread the loop does not skip: it has posts (line 264) and the date
      of its last stored post lies in the inclusive range (lines 266-270). */
  predicate Counted(t: Thread, range: DateRange)
  {
    t.posts != [] && t.posts[|t.posts| - 1].timestamp.Some? && InRange(t.posts[|t.posts| - 1].timestamp.value, range)
  }

  /** The threads that become topics, in forum order. */
  function Included(threads: seq<Thread>, range: DateRange): (r: seq<Thread>)
    ensures |r| <= |threads|
    ensures forall t :: t in r ==> Counted(t, range)
  {
    if threads == [] then []
    else
      var init, t := threads[..|threads| - 1], threads[|threads| - 1];
      Included(init, range) + (if Counted(t, range) then [t] else [])
  }

  lemma IncludedSnoc(threads: seq<Thread>, t: Thread, range: DateRange)
    ensures Included(threads + [t], range) == Included(threads, range) + (if Counted(t, range) then [t] else [])
  {
    assert (threads + [t])[..|threads|] == threads;
  }

  /** A thread becomes a topic exactly when it is in the forum and counted. */
  lemma {:induction false} IncludedMembers(threads: seq<Thread>, range: DateRange, t: Thread)
    ensures t in Included(threads, range) <==> t in threads && Counted(t, range)
  {
    if threads != [] {
      var init := threads[..|threads| - 1];
      IncludedMembers(init, range, t);
      assert threads == init + [threads[|threads| - 1]];
    }
  }

  /** The reply count of one topic: every post but the opener. */
  function Replies(t: Thread): nat
  {
    if t.posts == [] then 0 else |t.posts| - 1
  }

  /** `total_reply_count` once the given topics have been added. */
  function ReplyTotal(topics: seq<Thread>): nat
  {
    if topics == [] then 0 else ReplyTotal(topics[..|topics| - 1]) + Replies(topics[|topics| - 1])
  }

  /** The total counts every reply of every topic once: it is at most the
      number of posts, minus one opener per topic. */
  lemma {:induction false} ReplyTotalBound(topics: seq<Thread>)
    requires forall t :: t in topics ==> t.posts != []
    ensures ReplyTotal(topics) + |topics| == PostTotal(topics)
  {
    if topics != [] {
      var init := topics[..|topics| - 1];
      assert forall t :: t in init ==> t in topics;
      ReplyTotalBound(init);
    }
  }

  function PostTotal(topics: seq<Thread>): nat
  {
    if topics == [] then 0 else PostTotal(topics[..|topics| - 1]) + |topics[|topics| - 1].posts|
  }

  /** One more thread of the forum: a counted thread adds one topic, its
      replies to the reply total and its posts to the post total; any
      other thread adds nothing. */
  lemma IncludedStep(threads: seq<Thread>, n: nat, range: DateRange)
    requires n < |threads|
    ensures var t, before, after := threads[n], Included(threads[..n], range), Included(threads[..n + 1], range);
      && after == before + (if Counted(t, range) then [t] else [])
      && ReplyTotal(after) == ReplyTotal(before) + (if Counted(t, range) then |t.posts| - 1 else 0)
      && PostTotal(after) == PostTotal(before) + (if Counted(t, range) then |t.posts| else 0)
  {
    var t, before := threads[n], Included(threads[..n], range);
    assert threads[..n + 1] == threads[..n] + [t];
    IncludedSnoc(threads[..n], t, range);
    if Counted(t, range) {
      TotalsSnoc(before, t);
    } else {
      assert before + [] == before;
    }
  }

  lemma TotalsSnoc(topics: seq<Thread>, t: Thread)
    ensures ReplyTotal(topics + [t]) == ReplyTotal(topics) + Replies(t)
    ensures PostTotal(topics + [t]) == PostTotal(topics) + |t.posts|
  {
    assert (topics + [t])[..|topics|] == topics;
  }

  // ------------------------------------------------------------ topic maximum

  /** A timestamp with the id of the item that carried it. */
  datatype Latest = Latest(time: Timestamp, id: int)

  /** `if item.timestamp > last_active: last_active, last_active_id = ...`. */
  function Step(cur: Latest, e: Latest): Latest
  {
    if Later(e.time, cur.time) then e else cur
  }

  /** The running maximum after the given events, starting from `init`. */
  function Track(init: Latest, events: seq<Latest>): Latest
  {
    if events == [] then init else Step(Track(init, events[..|events| - 1]), events[|events| - 1])
  }

  lemma TrackSnoc(init: Latest, events: seq<Latest>, e: Latest)
    ensures Track(init, events + [e]) == Step(Track(init, events), e)
  {
    assert (events + [e])[..|events|] == events;
  }

  /** `last_active` is at least the start value and every event seen. */
  lemma {:induction false} TrackIsMax(init: Latest, events: seq<Latest>)
    ensures var r := Track(init, events);
      !Later(init.time, r.time) && forall i :: 0 <= i < |events| ==> !Later(events[i].time, r.time)
  {
    if events != [] {
      var prev := events[..|events| - 1];
      TrackIsMax(init, prev);
      var p, e := Track(init, prev), events[|events| - 1];
      forall a: Timestamp, b: Timestamp, c: Timestamp {
        LaterOrder(a, b, c);
      }
      assert forall i :: 0 <= i < |prev| ==> events[i] == prev[i];
    }
  }

  /** The position of the event Track settles on, or -1 for the start value. */
  function Winner(init: Latest, events: seq<Latest>): (j: int)
    ensures -1 <= j < |events|
  {
    if events == [] then -1
    else
      var prev := events[..|events| - 1];
      if Later(events[|events| - 1].time, Track(init, prev).time) then |events| - 1 else Winner(init, prev)
  }

  /** Running the maximum over two stretches of events is running it over
      the first, then continuing from there over the second. */
  lemma {:induction false} TrackAppend(init: Latest, a: seq<Latest>, b: seq<Latest>)
    ensures Track(init, a + b) == Track(Track(init, a), b)
  {
    if b == [] {
      assert a + b == a;
    } else {
      var prev := b[..|b| - 1];
      TrackAppend(init, a, prev);
      assert (a + b)[..|a + b| - 1] == a + prev;
    }
  }

  /** `last_active_id` belongs to the FIRST event that reached the maximum:
      every event before the winner is strictly earlier, because the test is
      a strict `>`. When no event beats the start value the start value stays. */
  lemma {:induction false} TrackFirstToReach(init: Latest, events: seq<Latest>)
    ensures var r, j := Track(init, events), Winner(init, events);
      && (j == -1 ==> r == init)
      && (j >= 0 ==> r == events[j] && Later(r.time, init.time)
                     && forall i :: 0 <= i < j ==> Later(r.time, events[i].time))
  {
    if events != [] {
      var prev := events[..|events| - 1];
      TrackFirstToReach(init, prev);
      TrackIsMax(init, prev);
      var p, e := Track(init, prev), events[|events| - 1];
      if Later(e.time, p.time) {
        forall i | 0 <= i < |events| - 1
          ensures Later(e.time, events[i].time)
        {
          assert events[i] == prev[i];
          LaterOrder(e.time, p.time, events[i].time);
          LaterOrder(events[i].time, p.time, e.time);
        }
        LaterOrder(e.time, p.time, init.time);
        LaterOrder(init.time, p.time, e.time);
      } else {
        var j := Winner(init, prev);
        assert forall i :: 0 <= i < |prev| ==> events[i] == prev[i];
      }
    }
  }

  // ------------------------------------------------------------ forum maximum

  /** An item the forum loop sees: a topic or a reply, with its topic's id. */
  datatype Event = Event(time: Timestamp, id: int, topicId: int, isReply: bool)

  /** The forum-scope counters `forum_last_active`, `forum_last_active_id`,
      `last_topic_id` and `forum_last_reply_id`. */
  datatype ForumTrack = ForumTrack(latest: Latest, lastTopicId: int, lastReplyId: int)

  /** The forum-level update of lines 289-292 and 324-328: when the item is
      later than the forum maximum, all the counters move together; a topic
      leaves `forum_last_reply_id` as it was. */
  function ForumStep(f: ForumTrack, e: Event): ForumTrack
  {
    if Later(e.time, f.latest.time) then
      ForumTrack(Latest(e.time, e.id), e.topicId, if e.isReply then e.id else f.lastReplyId)
    else f
  }

  function ForumFold(init: ForumTrack, events: seq<Event>): ForumTrack
  {
    if events == [] then init else ForumStep(ForumFold(init, events[..|events| - 1]), events[|events| - 1])
  }

  lemma ForumFoldSnoc(init: ForumTrack, events: seq<Event>, e: Event)
    ensures ForumFold(init, events + [e]) == ForumStep(ForumFold(init, events), e)
  {
    assert (events + [e])[..|events|] == events;
  }

  /** The forum counters carry over from one thread to the next. */
  lemma {:induction false} ForumFoldAppend(init: ForumTrack, a: seq<Event>, b: seq<Event>)
    ensures ForumFold(init, a + b) == ForumFold(ForumFold(init, a), b)
  {
    if b == [] {
      assert a + b == a;
    } else {
      var prev := b[..|b| - 1];
      ForumFoldAppend(init, a, prev);
      assert (a + b)[..|a + b| - 1] == a + prev;
    }
  }

  /** The timestamps and ids of the events, as Track sees them. */
  function Moments(events: seq<Event>): (r: seq<Latest>)
    ensures |r| == |events| && forall i :: 0 <= i < |r| ==> r[i] == Latest(events[i].time, events[i].id)
  {
    seq(|events|, i requires 0 <= i < |events| => Latest(events[i].time, events[i].id))
  }

  /** The forum maximum is the running maximum of everything the forum loop
      saw, so by TrackIsMax it is at least every processed timestamp. */
  lemma {:induction false} ForumFoldLatest(init: ForumTrack, events: seq<Event>)
    ensures ForumFold(init, events).latest == Track(init.latest, Moments(events))
  {
    if events != [] {
      var prev := events[..|events| - 1];
      ForumFoldLatest(init, prev);
      assert Moments(events)[..|events| - 1] == Moments(prev);
    }
  }

  /** The forum maximum never moves backwards. */
  lemma ForumFoldGrows(init: ForumTrack, events: seq<Event>)
    ensures !Later(init.latest.time, ForumFold(init, events).latest.time)
  {
    ForumFoldLatest(init, events);
    TrackIsMax(init.latest, Moments(events));
  }

  /** `last_topic_id` and `forum_last_reply_id` change only together with
      the forum maximum: if the maximum ends where it started, nothing moved. */
  lemma {:induction false} ForumFoldLockstep(init: ForumTrack, events: seq<Event>)
    ensures ForumFold(init, events).latest == init.latest ==> ForumFold(init, events) == init
  {
    if events != [] {
      var prev := events[..|events| - 1];
      ForumFoldLockstep(init, prev);
      ForumFoldLatest(init, prev);
      ForumFoldLatest(init, events);
      var p := ForumFold(init, prev);
      var e := events[|events| - 1];
      TrackIsMax(init.latest, Moments(prev));
      if Later(e.time, p.latest.time) {
        LaterOrder(e.time, p.latest.time, init.latest.time);
        LaterOrder(init.latest.time, init.latest.time, init.latest.time);
      }
    }
  }

  /** `forum_last_reply_id` is its start value or the id of a reply the
      forum loop saw. */
  lemma {:induction false} ForumLastReplyIsReply(init: ForumTrack, events: seq<Event>)
    ensures var r := ForumFold(init, events);
      r.lastReplyId == init.lastReplyId || exists j :: 0 <= j < |events| && events[j].isReply && events[j].id == r.lastReplyId
  {
    if events != [] {
      var prev := events[..|events| - 1];
      ForumLastReplyIsReply(init, prev);
      var r := ForumFold(init, prev);
      if r.lastReplyId != init.lastReplyId {
        var j :| 0 <= j < |prev| && prev[j].isReply && prev[j].id == r.lastReplyId;
        assert events[j] == prev[j];
      }
    }
  }
}
