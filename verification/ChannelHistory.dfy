/**
 Channel history: mode H keeps recent messages and replays them to users who join.

 The list is cut at three places: a message may push the oldest one out, setting the mode may
 shrink the list, and a replay drops what has expired.  The model compares it with the complete
 log of recorded messages, from which nothing is ever dropped.
 */
module ChannelHistory {

  datatype Item = Item(ts: int, text: string)

  /** The stored messages and the two limits; a time limit of zero means none. */
  datatype History = History(lines: seq<Item>, maxlen: nat, maxtime: nat)

  // ----- what the code does to a list

  /** Drops messages from the front while they are older than `mintime`. */
  function DropOld(lines: seq<Item>, mintime: int): seq<Item>
  {
    if lines == [] || lines[0].ts >= mintime then lines else DropOld(lines[1..], mintime)
  }

  function Prune(h: History, now: int): History
  {
    if h.maxtime == 0 then h else h.(lines := DropOld(h.lines, now - h.maxtime))
  }

  function Post(h: History, item: Item): History
  {
    var lines := h.lines + [item];
    h.(lines := if |lines| > h.maxlen then lines[1..] else lines)
  }

  /** The last `n` elements, or all if there are fewer. */
  function Last<T>(s: seq<T>, n: nat): seq<T>
  {
    if n < |s| then s[|s| - n..] else s
  }

  function SetLimits(h: History, lines: nat, duration: nat, now: int): History
  {
    Prune(History(Last(h.lines, lines), lines, duration), now)
  }

  // ----- runs

  datatype Event = Posted(item: Item) | Replayed(now: int) | LimitsSet(lines: nat, duration: nat, at: int)

  function TimeOf(e: Event): int
  {
    match e
    case Posted(item) => item.ts
    case Replayed(now) => now
    case LimitsSet(_, _, at) => at
  }

  function Perform(h: History, e: Event): History
  {
    match e
    case Posted(item) => Post(h, item)
    case Replayed(now) => Prune(h, now)
    case LimitsSet(lines, duration, at) => SetLimits(h, lines, duration, at)
  }

  function Run(h: History, events: seq<Event>): History
  {
    if events == [] then h else Perform(Run(h, events[..|events| - 1]), events[|events| - 1])
  }

  /** Every message recorded, in order. */
  function Log(events: seq<Event>): seq<Item>
  {
    if events == [] then []
    else Log(events[..|events| - 1]) + match events[|events| - 1] case Posted(item) => [item] case _ => []
  }

  /** The clock never goes back. */
  ghost predicate ClockRuns(events: seq<Event>)
  {
    forall i, j :: 0 <= i < j < |events| ==> TimeOf(events[i]) <= TimeOf(events[j])
  }

  // ----- the list against the log

  /** The stored messages are the end of the log, and not too many. */
  ghost predicate EndOfLog(h: History, log: seq<Item>)
  {
    |h.lines| <= |log| && |h.lines| <= h.maxlen && h.lines == log[|log| - |h.lines|..]
  }

  lemma {:induction false} DropOldIsSuffix(lines: seq<Item>, mintime: int)
    ensures |DropOld(lines, mintime)| <= |lines| && DropOld(lines, mintime) == lines[|lines| - |DropOld(lines, mintime)|..]
    ensures forall i :: 0 <= i < |lines| - |DropOld(lines, mintime)| ==> lines[i].ts < mintime
    ensures DropOld(lines, mintime) != [] ==> DropOld(lines, mintime)[0].ts >= mintime
    decreases lines
  {
    if lines != [] && lines[0].ts < mintime {
      DropOldIsSuffix(lines[1..], mintime);
    }
  }

  lemma SuffixOfSuffix<T>(s: seq<T>, n: nat, m: nat)
    requires m <= n <= |s|
    ensures s[|s| - n..][n - m..] == s[|s| - m..]
  {
  }

  lemma PruneKeepsEnd(h: History, log: seq<Item>, now: int)
    requires EndOfLog(h, log)
    ensures EndOfLog(Prune(h, now), log)
  {
    DropOldIsSuffix(h.lines, now - h.maxtime);
    SuffixOfSuffix(log, |h.lines|, |DropOld(h.lines, now - h.maxtime)|);
  }

  lemma SetLimitsKeepsEnd(h: History, log: seq<Item>, lines: nat, duration: nat, now: int)
    requires EndOfLog(h, log)
    ensures EndOfLog(SetLimits(h, lines, duration, now), log)
  {
    if lines < |h.lines| {
      SuffixOfSuffix(log, |h.lines|, lines);
    }
    PruneKeepsEnd(History(Last(h.lines, lines), lines, duration), log, now);
  }

  /** Whatever happens, the list is the end of the log and within its limit. */
  lemma {:induction false} RunIsEndOfLog(h: History, events: seq<Event>)
    requires h.lines == []
    ensures EndOfLog(Run(h, events), Log(events))
    decreases events
  {
    hide Prune, SetLimits;
    if events != [] {
      var front := events[..|events| - 1];
      RunIsEndOfLog(h, front);
      var before := Run(h, front);
      match events[|events| - 1]
      case Posted(item) =>
      case Replayed(now) => PruneKeepsEnd(before, Log(front), now);
      case LimitsSet(lines, duration, at) => SetLimitsKeepsEnd(before, Log(front), lines, duration, at);
    }
  }

  ghost predicate InOrder(log: seq<Item>)
  {
    forall i, j :: 0 <= i < j < |log| ==> log[i].ts <= log[j].ts
  }

  lemma {:induction false} LogInOrder(events: seq<Event>)
    requires ClockRuns(events)
    ensures InOrder(Log(events))
    ensures events != [] ==> forall i :: 0 <= i < |Log(events)| ==> Log(events)[i].ts <= TimeOf(events[|events| - 1])
    decreases events
  {
    if events != [] {
      var front := events[..|events| - 1];
      LogInOrder(front);
      if front != [] {
        assert TimeOf(events[|events| - 2]) <= TimeOf(events[|events| - 1]);
      }
    }
  }

  /** Whatever was dropped is beyond the length limit or expired. */
  ghost predicate DroppedForGoodReason(h: History, log: seq<Item>, now: int)
  {
    forall i :: 0 <= i < |log| - |h.lines| ==> i < |log| - h.maxlen || Expired(h.maxtime, log[i], now)
  }

  ghost predicate Expired(maxtime: nat, item: Item, now: int)
  {
    maxtime != 0 && item.ts < now - maxtime
  }

  /** The limits are never raised: every change keeps or lowers both. */
  ghost predicate LimitsOnlyShrink(h: History, events: seq<Event>)
  {
    forall n :: 0 <= n < |events| && events[n].LimitsSet? ==>
      var before := Run(h, events[..n]);
      events[n].lines <= before.maxlen && events[n].duration > 0 && (before.maxtime == 0 || events[n].duration <= before.maxtime)
  }

  lemma PruneKeepsReason(h: History, log: seq<Item>, now: int, later: int)
    requires EndOfLog(h, log) && DroppedForGoodReason(h, log, now) && now <= later
    ensures DroppedForGoodReason(Prune(h, later), log, later)
  {
    var n, kept := |log| - |h.lines|, Prune(h, later).lines;
    DropOldIsSuffix(h.lines, later - h.maxtime);
    forall i | 0 <= i < |log| - |kept|
      ensures i < |log| - h.maxlen || Expired(h.maxtime, log[i], later)
    {
      if i < n {
        assert i < |log| - h.maxlen || Expired(h.maxtime, log[i], now);
      } else {
        assert log[i] == h.lines[i - n];
      }
    }
  }

  lemma PerformKeepsReason(h: History, log: seq<Item>, now: int, e: Event)
    requires EndOfLog(h, log) && DroppedForGoodReason(h, log, now) && now <= TimeOf(e)
    requires e.LimitsSet? ==> e.lines <= h.maxlen && e.duration > 0 && (h.maxtime == 0 || e.duration <= h.maxtime)
    ensures DroppedForGoodReason(Perform(h, e), log + (match e case Posted(item) => [item] case _ => []), TimeOf(e))
  {
    assert log + [] == log;
    match e
    case Posted(item) =>
      forall i | 0 <= i < |log| - |h.lines|
        ensures i < |log| + 1 - h.maxlen || Expired(h.maxtime, (log + [item])[i], item.ts)
      {
        assert i < |log| - h.maxlen || Expired(h.maxtime, log[i], now);
      }
    case Replayed(t) => PruneKeepsReason(h, log, now, t);
    case LimitsSet(lines, duration, at) =>
      var shrunk := History(Last(h.lines, lines), lines, duration);
      if lines < |h.lines| {
        SuffixOfSuffix(log, |h.lines|, lines);
      }
      PruneKeepsReason(shrunk, log, now, at);
  }

  lemma {:induction false} RunKeepsReason(h: History, events: seq<Event>, start: int)
    requires h.lines == [] && ClockRuns(events) && LimitsOnlyShrink(h, events)
    requires events != [] ==> start <= TimeOf(events[0])
    ensures DroppedForGoodReason(Run(h, events), Log(events), if events == [] then start else TimeOf(events[|events| - 1]))
    decreases events
  {
    if events != [] {
      var n := |events| - 1;
      var front := events[..n];
      assert LimitsOnlyShrink(h, front) by {
        assert forall i :: 0 <= i < n ==> front[..i] == events[..i] && front[i] == events[i];
      }
      RunKeepsReason(h, front, start);
      RunIsEndOfLog(h, front);
      var now := if front == [] then start else TimeOf(front[n - 1]);
      assert front != [] ==> TimeOf(events[n - 1]) <= TimeOf(events[n]);
      PerformKeepsReason(Run(h, front), Log(front), now, events[n]);
    }
  }

  /** The items not older than `mintime`. */
  function NotOlder(items: seq<Item>, mintime: int): seq<Item>
  {
    if items == [] then [] else (if items[0].ts >= mintime then [items[0]] else []) + NotOlder(items[1..], mintime)
  }

  lemma {:induction false} NotOlderInOrder(items: seq<Item>, mintime: int, n: nat)
    requires InOrder(items) && n <= |items|
    requires (forall i :: 0 <= i < n ==> items[i].ts < mintime) && (n < |items| ==> items[n].ts >= mintime)
    ensures NotOlder(items, mintime) == items[n..]
    decreases items
  {
    if items != [] {
      if n > 0 {
        NotOlderInOrder(items[1..], mintime, n - 1);
      } else {
        NotOlderInOrder(items[1..], mintime, 0);
      }
    }
  }

  /**
   While the limits are not raised, a replay shows exactly the last messages of the log up to the
   length limit, without those that have expired.
   */
  lemma ReplayIsRecentLog(h: History, events: seq<Event>, now: int)
    requires h.lines == [] && ClockRuns(events + [Replayed(now)]) && LimitsOnlyShrink(h, events)
    ensures var r := Run(h, events + [Replayed(now)]);
            r.lines == if r.maxtime == 0 then Last(Log(events), r.maxlen) else NotOlder(Last(Log(events), r.maxlen), now - r.maxtime)
  {
    hide Run, Log, ClockRuns, EndOfLog, InOrder, DroppedForGoodReason, LimitsOnlyShrink, Last, NotOlder;
    var start := if events == [] then now else TimeOf(events[0]);
    RunOneMore(h, events, Replayed(now));
    ClockBefore(events, Replayed(now));
    RunKeepsReason(h, events, start);
    RunIsEndOfLog(h, events);
    LogInOrder(events);
    ReplayOf(Run(h, events), Log(events), if events == [] then start else TimeOf(events[|events| - 1]), now);
  }

  lemma RunOneMore(h: History, events: seq<Event>, e: Event)
    ensures Run(h, events + [e]) == Perform(Run(h, events), e)
  {
    assert (events + [e])[..|events|] == events;
  }

  lemma ClockBefore(events: seq<Event>, e: Event)
    requires ClockRuns(events + [e])
    ensures ClockRuns(events) && (events != [] ==> TimeOf(events[|events| - 1]) <= TimeOf(e))
  {
    var all := events + [e];
    assert forall i :: 0 <= i < |events| ==> all[i] == events[i];
    assert events != [] ==> TimeOf(all[|events| - 1]) <= TimeOf(all[|events|]);
  }

  /** The items not older than a time are those at or after it, as often as they occur. */
  lemma {:induction false} NotOlderCounts(items: seq<Item>, mintime: int, item: Item)
    ensures multiset(NotOlder(items, mintime))[item] == if item.ts >= mintime then multiset(items)[item] else 0
    decreases items
  {
    if items != [] {
      NotOlderCounts(items[1..], mintime, item);
      assert items == [items[0]] + items[1..];
    }
  }

  /** A replay shows a message as often as it is among the last ones, if it is at most as old as the limit allows, and otherwise not at all. */
  lemma ReplayShows(h: History, events: seq<Event>, now: int, item: Item)
    requires h.lines == [] && ClockRuns(events + [Replayed(now)]) && LimitsOnlyShrink(h, events)
    ensures var r := Run(h, events + [Replayed(now)]);
            multiset(r.lines)[item] == if r.maxtime == 0 || now - item.ts <= r.maxtime then multiset(Last(Log(events), r.maxlen))[item] else 0
  {
    hide Run, Log, ClockRuns, LimitsOnlyShrink, Last, NotOlder, Perform;
    ReplayIsRecentLog(h, events, now);
    var r := Run(h, events + [Replayed(now)]);
    NotOlderCounts(Last(Log(events), r.maxlen), now - r.maxtime, item);
  }

  /** Among the recent messages, exactly those still stored after pruning have not expired. */
  lemma StoredAreUnexpired(h: History, log: seq<Item>, t: int, now: int, i: nat)
    requires EndOfLog(h, log) && DroppedForGoodReason(h, log, t) && t <= now && h.maxtime != 0
    requires |log| - h.maxlen <= i < |log| - |Prune(h, now).lines|
    ensures log[i].ts < now - h.maxtime
  {
    DropOldIsSuffix(h.lines, now - h.maxtime);
    var n := |log| - |h.lines|;
    if i < n {
      assert Expired(h.maxtime, log[i], t);
    } else {
      assert log[i] == h.lines[i - n];
    }
  }

  lemma ReplayUntimed(h: History, log: seq<Item>, t: int)
    requires EndOfLog(h, log) && DroppedForGoodReason(h, log, t) && h.maxtime == 0
    ensures h.lines == Last(log, h.maxlen)
  {
    var n := |log| - |Last(log, h.maxlen)|;
    assert n < |log| - |h.lines| ==> n < |log| - h.maxlen || Expired(h.maxtime, log[n], t);
  }

  lemma LastAt<T>(s: seq<T>, n: nat)
    ensures |Last(s, n)| == if n < |s| then n else |s|
    ensures forall i :: 0 <= i < |Last(s, n)| ==> Last(s, n)[i] == s[|s| - |Last(s, n)| + i]
  {
  }

  lemma LastInOrder(log: seq<Item>, n: nat)
    requires InOrder(log)
    ensures InOrder(Last(log, n))
  {
  }

  lemma SuffixOfLast<T>(s: seq<T>, n: nat, kept: seq<T>)
    requires |kept| <= |s| && |kept| <= n && kept == s[|s| - |kept|..]
    ensures |kept| <= |Last(s, n)| && Last(s, n)[|Last(s, n)| - |kept|..] == kept
  {
    if n < |s| {
      SuffixOfSuffix(s, n, |kept|);
    }
  }

  lemma RecentAreUnexpired(h: History, log: seq<Item>, t: int, now: int, i: nat)
    requires EndOfLog(h, log) && DroppedForGoodReason(h, log, t) && t <= now && h.maxtime != 0
    requires i < |Last(log, h.maxlen)| - |Prune(h, now).lines|
    ensures Last(log, h.maxlen)[i].ts < now - h.maxtime
  {
    hide Last, EndOfLog, DroppedForGoodReason, Prune;
    LastAt(log, h.maxlen);
    StoredAreUnexpired(h, log, t, now, |log| - |Last(log, h.maxlen)| + i);
  }

  lemma ReplayTimed(h: History, log: seq<Item>, t: int, now: int)
    requires EndOfLog(h, log) && InOrder(log) && DroppedForGoodReason(h, log, t) && t <= now && h.maxtime != 0
    ensures Prune(h, now).lines == NotOlder(Last(log, h.maxlen), now - h.maxtime)
  {
    hide DropOld, NotOlder, DroppedForGoodReason, Last, InOrder;
    var kept, recent := Prune(h, now).lines, Last(log, h.maxlen);
    PruneKeepsEnd(h, log, now);
    SuffixOfLast(log, h.maxlen, kept);
    LastInOrder(log, h.maxlen);
    FirstKept(h, now);
    forall i | 0 <= i < |recent| - |kept|
      ensures recent[i].ts < now - h.maxtime
    {
      RecentAreUnexpired(h, log, t, now, i);
    }
    NotOlderInOrder(recent, now - h.maxtime, |recent| - |kept|);
  }

  lemma FirstKept(h: History, now: int)
    requires h.maxtime != 0
    ensures Prune(h, now).lines != [] ==> Prune(h, now).lines[0].ts >= now - h.maxtime
  {
    DropOldIsSuffix(h.lines, now - h.maxtime);
  }

  lemma ReplayOf(h: History, log: seq<Item>, t: int, now: int)
    requires EndOfLog(h, log) && InOrder(log) && DroppedForGoodReason(h, log, t) && t <= now
    ensures var r := Prune(h, now);
            r.lines == if h.maxtime == 0 then Last(log, h.maxlen) else NotOlder(Last(log, h.maxlen), now - h.maxtime)
  {
    if h.maxtime == 0 {
      ReplayUntimed(h, log, t);
    } else {
      ReplayTimed(h, log, t, now);
    }
  }

  /** Under limits that left nothing out without a reason, a change of limits still leaves nothing out without one. */
  ghost predicate StaysFaithful(h: History, log: seq<Item>, t: int, lines: nat, duration: nat, at: int)
  {
    EndOfLog(h, log) && DroppedForGoodReason(h, log, t) && t <= at ==> DroppedForGoodReason(SetLimits(h, lines, duration, at), log, at)
  }

  /** A list that is full of messages of the same second, after one more. */
  lemma MoreLinesLose(maxlen: nat, maxtime: nat, lines: nat, duration: nat, at: int)
    requires lines > maxlen && duration > 0
    ensures var log := seq(maxlen + 1, _ => Item(at, ""));
            !StaysFaithful(History(log[1..], maxlen, maxtime), log, at, lines, duration, at)
  {
    hide EndOfLog, DropOld;
    var log := seq(maxlen + 1, _ => Item(at, ""));
    var h := History(log[1..], maxlen, maxtime);
    RecentAreKept(h.lines, at - duration);
    var h' := SetLimits(h, lines, duration, at);
    assert h' == History(h.lines, lines, duration);
    assert EndOfLog(h, log) by {
      TailIsEnd(h, log);
    }
    assert !(0 < |log| - h'.maxlen || Expired(h'.maxtime, log[0], at));
  }

  lemma RecentAreKept(lines: seq<Item>, mintime: int)
    requires forall i :: 0 <= i < |lines| ==> lines[i].ts >= mintime
    ensures DropOld(lines, mintime) == lines
  {
  }

  lemma TailIsEnd(h: History, log: seq<Item>)
    requires log != [] && h.lines == log[1..] && h.maxlen == |log| - 1
    ensures EndOfLog(h, log)
  {
  }

  /** A message that has just expired. */
  lemma MoreTimeLoses(maxlen: nat, maxtime: nat, lines: nat, duration: nat, at: int)
    requires lines > 0 && maxtime != 0 && duration > maxtime
    ensures !StaysFaithful(History([], maxlen, maxtime), [Item(at - maxtime - 1, "")], at, lines, duration, at)
  {
    var h' := SetLimits(History([], maxlen, maxtime), lines, duration, at);
    var log := [Item(at - maxtime - 1, "")];
    assert h'.lines == [];
    assert !(0 < |log| - h'.maxlen || Expired(h'.maxtime, log[0], at));
  }

  /** A change of limits is safe for every history if and only if it raises neither limit. */
  lemma LimitChangeSafeIff(maxlen: nat, maxtime: nat, lines: nat, duration: nat, at: int)
    requires lines > 0 && duration > 0
    ensures (forall h: History, log, t :: h.maxlen == maxlen && h.maxtime == maxtime ==> StaysFaithful(h, log, t, lines, duration, at))
            <==> lines <= maxlen && (maxtime == 0 || duration <= maxtime)
  {
    if lines > maxlen {
      MoreLinesLose(maxlen, maxtime, lines, duration, at);
    } else if maxtime != 0 && duration > maxtime {
      MoreTimeLoses(maxlen, maxtime, lines, duration, at);
    } else {
      forall h: History, log, t | h.maxlen == maxlen && h.maxtime == maxtime && EndOfLog(h, log) && DroppedForGoodReason(h, log, t) && t <= at
        ensures StaysFaithful(h, log, t, lines, duration, at)
      {
        PerformKeepsReason(h, log, t, LimitsSet(lines, duration, at));
        assert log + [] == log;
      }
    }
  }

  /** Raising a limit does not bring back what was dropped under the lower one. */
  lemma RaisedLimitLosesHistory(a: string, b: string)
    ensures var events := [Posted(Item(1, a)), Posted(Item(2, b)), LimitsSet(2, 100, 3)];
            var r := Run(History([], 1, 100), events);
            r.lines == [Item(2, b)] && Last(Log(events), r.maxlen) == [Item(1, a), Item(2, b)]
  {
    var events := [Posted(Item(1, a)), Posted(Item(2, b)), LimitsSet(2, 100, 3)];
    var h := History([], 1, 100);
    assert events[..2][..1] == [Posted(Item(1, a))] && events[..2][..1][..0] == [];
    assert Run(h, events[..2][..1]).lines == [Item(1, a)];
    assert Run(h, events[..2]).lines == [Item(2, b)];
    assert Log(events[..2][..1]) == [Item(1, a)];
    assert Log(events[..2]) == [Item(1, a), Item(2, b)];
    assert Log(events) == Log(events[..2]) + [];
  }

  // ----- the module

  /** The earliest time that can be represented. */
  const TIME_MIN: int := -0x8000_0000_0000_0000

  /** A stored message: its time can be represented. */
  type Dated = i: Item | i.ts >= TIME_MIN witness Item(0, "")

  /** The time some seconds ago; the subtraction saturates. */
  function Ago(now: int, seconds: nat): int
  {
    if now - seconds < TIME_MIN then TIME_MIN else now - seconds
  }

  class HistoryList {
    var lines: seq<Dated>
    var maxlen: nat
    var maxtime: nat

    ghost function Value(): History
      reads this
    {
      History(lines, maxlen, maxtime)
    }

    constructor (len: nat, time: nat)
      ensures Value() == History([], len, time)
    {
      lines, maxlen, maxtime := [], len, time;
    }

    /** Drops expired messages and returns how many are left. */
    method PruneLines(now: int) returns (n: nat)
      modifies this`lines
      ensures Value() == Prune(old(Value()), now) && n == |lines|
    {
      if maxtime != 0 {
        var mintime := Ago(now, maxtime);
        while lines != [] && lines[0].ts < mintime
          invariant DropOld(lines, now - maxtime) == DropOld(old(lines), now - maxtime)
          decreases |lines|
        {
          lines := lines[1..];
        }
      }
      n := |lines|;
    }
  }

  class ModuleChanHistory {
    var maxduration: nat   // the most a local user may ask for; zero means no limit
    var maxlines: nat
    var ext: HistoryList?  // the history of the channel while mode H is set

    constructor (maxduration: nat, maxlines: nat)
      ensures this.maxduration == maxduration && this.maxlines == maxlines && ext == null
    {
      this.maxduration, this.maxlines, ext := maxduration, maxlines, null;
    }

    /** Local users are held to the configured limit, if there is one; remote ones get what they ask for. */
    function Clamp(isLocal: bool, asked: nat, most: nat): (r: nat)
      ensures isLocal && most != 0 ==> r <= most && (asked <= most ==> r == asked)
      ensures isLocal && most != 0 && asked > most ==> r == most
      ensures !isLocal || most == 0 ==> r == asked
    {
      if isLocal && most != 0 && asked > most then most else asked
    }

    /** Sets mode H; zero stands for a limit that is missing or malformed. */
    method OnSet(isLocal: bool, asked: nat, duration: nat, now: int) returns (ok: bool)
      modifies this`ext, ext
      ensures ok <==> asked != 0 && duration != 0
      ensures !ok ==> ext == old(ext) && (ext != null ==> ext.Value() == old(ext.Value()))
      ensures ok ==> ext != null && (old(ext) == null ==> fresh(ext)) && (old(ext) != null ==> ext == old(ext))
      ensures ok ==>
                var lines, time := Clamp(isLocal, asked, maxlines), Clamp(isLocal, duration, maxduration);
                ext.Value() == if old(ext) == null then History([], lines, time) else SetLimits(old(ext.Value()), lines, time, now)
      ensures ok && isLocal && maxlines != 0 ==> ext.maxlen <= maxlines
      ensures ok && isLocal && maxduration != 0 ==> ext.maxtime <= maxduration
      ensures ok && (!isLocal || (maxlines == 0 && maxduration == 0)) ==> ext.maxlen == asked && ext.maxtime == duration
    {
      if asked == 0 || duration == 0 {
        return false;
      }
      var lines, time := Clamp(isLocal, asked, maxlines), Clamp(isLocal, duration, maxduration);
      if ext != null {
        if lines < |ext.lines| {
          ext.lines := ext.lines[|ext.lines| - lines..];
        }
        ext.maxlen := lines;
        ext.maxtime := time;
        var _ := ext.PruneLines(now);
      } else {
        ext := new HistoryList(lines, time);
      }
      return true;
    }

    /** Records a message to the whole channel, unless it is from a bot that is not saved or a CTCP other than ACTION. */
    method OnUserPostMessage(item: Dated, toChannel: bool, hasStatus: bool, unsavedBot: bool, otherCtcp: bool)
      modifies ext
      ensures ext != null ==>
                var recorded := toChannel && !hasStatus && !unsavedBot && !otherCtcp;
                ext.Value() == if recorded then Post(old(ext.Value()), item) else old(ext.Value())
    {
      if !toChannel || hasStatus {
        return;
      }
      if unsavedBot {
        return;
      }
      if otherCtcp {
        return;
      }
      if ext == null {
        return;
      }
      ext.lines := ext.lines + [item];
      if |ext.lines| > ext.maxlen {
        ext.lines := ext.lines[1..];
      }
    }

    /** What a user who joins is shown, and whether a notice announces it. */
    method OnPostJoin(isLocal: bool, unservedBot: bool, noHistory: bool, prefixmsg: bool, hasBatch: bool, now: int)
      returns (notice: bool, replay: seq<Item>)
      modifies ext
      ensures ext != null ==> ext.Value() == if isLocal && !unservedBot && !noHistory then Prune(old(ext.Value()), now) else old(ext.Value())
      ensures replay == if ext != null && isLocal && !unservedBot && !noHistory then Prune(old(ext.Value()), now).lines else []
      ensures notice <==> replay != [] && prefixmsg && !hasBatch
    {
      if !isLocal {
        return false, [];
      }
      if unservedBot {
        return false, [];
      }
      if noHistory {
        return false, [];
      }
      if ext == null {
        return false, [];
      }
      var n := ext.PruneLines(now);
      if n == 0 {
        return false, [];
      }
      notice := prefixmsg && !hasBatch;
      replay := ext.lines;
    }
  }
}
