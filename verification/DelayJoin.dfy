/**
 Delayed joins: channel mode D hides a member from the others until they speak, receive a prefix
 mode or the mode is removed.

 The module only edits a mark on each membership and the lists of users an event is sent to.  What
 it is for shows in what clients receive, so the model keeps a log of every delivery.  A client's
 picture of a channel is computed from its own deliveries alone; the theorem is that in every run
 each client's picture is exactly the members that are not hidden, and that no client is told
 about the same arrival twice or hears from a member it was never told about.
 */
module DelayJoin {
  import opened Collections

  datatype Memb = Memb(chan: nat, user: nat)

  /** What a client can be told. */
  datatype Event =
    | Joined(chan: nat, who: nat)
    | Listed(chan: nat, who: nat)
    | Parted(chan: nat, who: nat)
    | Kicked(chan: nat, who: nat, source: nat)
    | Spoke(chan: nat, who: nat)
    | SpokeFromOutside(chan: nat, who: nat)
    | HasQuit(who: nat)
    | ChangedNick(who: nat)
    | ClosingLink

  datatype Delivery = Delivery(to: nat, event: Event)

  // ----- what a client knows

  /** The members of channels that client `me` knows of after one more event. */
  ghost function Learn(view: set<Memb>, me: nat, event: Event): set<Memb>
  {
    match event
    case Joined(c, who) => view + {Memb(c, who)}
    case Listed(c, who) => view + {Memb(c, who)}
    case Parted(c, who) => if who == me then set m | m in view && m.chan != c else view - {Memb(c, who)}
    case Kicked(c, who, _) => if who == me then set m | m in view && m.chan != c else view - {Memb(c, who)}
    case HasQuit(who) => set m | m in view && m.user != who
    case ClosingLink => {}
    case _ => view
  }

  /** The events that make sense to a client with this view. */
  ghost predicate Sensible(view: set<Memb>, me: nat, event: Event)
  {
    match event
    case Joined(c, who) => who == me || Memb(c, who) !in view
    case Parted(c, who) => who == me || Memb(c, who) in view
    case Kicked(c, who, _) => who == me || Memb(c, who) in view
    case Spoke(c, who) => Memb(c, who) in view
    case HasQuit(who) => exists m :: m in view && m.user == who
    case ChangedNick(who) => who == me || exists m :: m in view && m.user == who
    case _ => true
  }

  /** What a client has learnt from everything delivered to it. */
  ghost function View(log: seq<Delivery>, me: nat): set<Memb>
  {
    if log == [] then {}
    else
      var before, last := View(log[..|log| - 1], me), log[|log| - 1];
      if last.to == me then Learn(before, me, last.event) else before
  }

  /** Every delivery made sense to its recipient when it arrived. */
  ghost predicate Coherent(log: seq<Delivery>)
  {
    log == [] ||
    var before, last := log[..|log| - 1], log[|log| - 1];
    Coherent(before) && Sensible(View(before, last.to), last.to, last.event)
  }

  lemma AppendDelivery(log: seq<Delivery>, d: Delivery, me: nat)
    ensures View(log + [d], me) == if d.to == me then Learn(View(log, me), me, d.event) else View(log, me)
    ensures Coherent(log + [d]) <==> Coherent(log) && Sensible(View(log, d.to), d.to, d.event)
  {
    assert (log + [d])[..|log|] == log;
  }

  // ----- sending

  /** One event to each of the users that `gets` admits, in order. */
  function Broadcast(users: seq<nat>, gets: nat -> bool, event: Event): seq<Delivery>
  {
    if users == [] then []
    else Broadcast(users[..|users| - 1], gets, event) +
         if gets(users[|users| - 1]) then [Delivery(users[|users| - 1], event)] else []
  }

  lemma {:induction false} BroadcastView(log: seq<Delivery>, users: seq<nat>, gets: nat -> bool, event: Event, me: nat)
    requires NoDuplicates(users)
    ensures View(log + Broadcast(users, gets, event), me) ==
            if me in users && gets(me) then Learn(View(log, me), me, event) else View(log, me)
    decreases users
  {
    if users == [] {
      assert log + [] == log;
    } else {
      var front, last := users[..|users| - 1], users[|users| - 1];
      BroadcastView(log, front, gets, event, me);
      assert me in users <==> me in front || me == last;
      var sent := log + Broadcast(front, gets, event);
      if gets(last) {
        AppendDelivery(sent, Delivery(last, event), me);
        assert log + Broadcast(users, gets, event) == sent + [Delivery(last, event)];
      } else {
        assert log + Broadcast(users, gets, event) == sent;
      }
    }
  }

  lemma {:induction false} BroadcastCoherent(log: seq<Delivery>, users: seq<nat>, gets: nat -> bool, event: Event)
    requires NoDuplicates(users) && Coherent(log)
    requires forall u :: u in users && gets(u) ==> Sensible(View(log, u), u, event)
    ensures Coherent(log + Broadcast(users, gets, event))
    decreases users
  {
    if users == [] {
      assert log + [] == log;
    } else {
      var front, last := users[..|users| - 1], users[|users| - 1];
      BroadcastCoherent(log, front, gets, event);
      BroadcastView(log, front, gets, event, last);
      var sent := log + Broadcast(front, gets, event);
      if gets(last) {
        AppendDelivery(sent, Delivery(last, event), last);
        assert log + Broadcast(users, gets, event) == sent + [Delivery(last, event)];
      } else {
        assert log + Broadcast(users, gets, event) == sent;
      }
    }
  }

  /** A NAMES reply to one user: each listed member in order. */
  function NamesReply(to: nat, chan: nat, users: seq<nat>, shown: nat -> bool): seq<Delivery>
  {
    if users == [] then []
    else NamesReply(to, chan, users[..|users| - 1], shown) +
         if shown(users[|users| - 1]) then [Delivery(to, Listed(chan, users[|users| - 1]))] else []
  }

  lemma {:induction false} NamesReplyView(log: seq<Delivery>, to: nat, chan: nat, users: seq<nat>, shown: nat -> bool, me: nat)
    ensures View(log + NamesReply(to, chan, users, shown), me) ==
            if me == to then View(log, me) + (set u | u in users && shown(u) :: Memb(chan, u)) else View(log, me)
    ensures Coherent(log) ==> Coherent(log + NamesReply(to, chan, users, shown))
    decreases users
  {
    if users == [] {
      assert log + [] == log;
    } else {
      var front, last := users[..|users| - 1], users[|users| - 1];
      NamesReplyView(log, to, chan, front, shown, me);
      assert forall u :: u in users <==> u in front || u == last;
      var sent := log + NamesReply(to, chan, front, shown);
      if shown(last) {
        AppendDelivery(sent, Delivery(to, Listed(chan, last)), me);
        assert log + NamesReply(to, chan, users, shown) == sent + [Delivery(to, Listed(chan, last))];
      } else {
        assert log + NamesReply(to, chan, users, shown) == sent;
      }
    }
  }

  // ----- the server

  /** Memberships, the marks on them, the channels with mode D, and everything delivered so far. */
  datatype State = State(membs: seq<Memb>, unjoined: map<Memb, nat>, delayed: set<nat>, log: seq<Delivery>)

  function Keep(membs: seq<Memb>, p: Memb -> bool): (r: seq<Memb>)
    ensures forall m :: m in r <==> m in membs && p(m)
  {
    if membs == [] then []
    else
      var front, last := membs[..|membs| - 1], membs[|membs| - 1];
      assert forall m :: m in membs <==> m in front || m == last;
      Keep(front, p) + if p(last) then [last] else []
  }

  lemma {:induction false} KeepNoDuplicates(membs: seq<Memb>, p: Memb -> bool)
    requires NoDuplicates(membs)
    ensures NoDuplicates(Keep(membs, p))
    decreases membs
  {
    if membs != [] {
      var front, last := membs[..|membs| - 1], membs[|membs| - 1];
      KeepNoDuplicates(front, p);
      assert last !in front;
      assert last !in Keep(front, p);
    }
  }

  /** The members of a channel. */
  function UsersOf(membs: seq<Memb>, chan: nat): (r: seq<nat>)
    ensures forall u :: u in r <==> Memb(chan, u) in membs
  {
    if membs == [] then []
    else
      var front, last := membs[..|membs| - 1], membs[|membs| - 1];
      assert forall m :: m in membs <==> m in front || m == last;
      UsersOf(front, chan) + if last.chan == chan then [last.user] else []
  }

  lemma {:induction false} UsersOfNoDuplicates(membs: seq<Memb>, chan: nat)
    requires NoDuplicates(membs)
    ensures NoDuplicates(UsersOf(membs, chan))
    decreases membs
  {
    if membs != [] {
      var front, last := membs[..|membs| - 1], membs[|membs| - 1];
      UsersOfNoDuplicates(front, chan);
      assert last !in front;
      assert last.chan == chan ==> last.user !in UsersOf(front, chan);
    }
  }

  /** Sends an event to the local members of a channel, except some. */
  function Write(isLocal: nat -> bool, s: State, chan: nat, except: set<nat>, event: Event): State
  {
    s.(log := s.log + Broadcast(UsersOf(s.membs, chan), (u: nat) => isLocal(u) && u !in except, event))
  }

  /** Shows a hidden member to the others. */
  function Reveal(isLocal: nat -> bool, s: State, m: Memb): State
  {
    if m !in s.membs || m !in s.unjoined then s
    else Write(isLocal, s.(unjoined := s.unjoined - {m}), m.chan, {m.user}, Joined(m.chan, m.user))
  }

  function SendNames(s: State, me: nat, chan: nat): State
  {
    s.(log := s.log + NamesReply(me, chan, UsersOf(s.membs, chan), (u: nat) => u == me || Memb(chan, u) !in s.unjoined))
  }

  /** The join hook drops the event for everyone but the member while the member is hidden. */
  function AnnounceJoin(isLocal: nat -> bool, s: State, m: Memb): State
  {
    s.(log := s.log + Broadcast(UsersOf(s.membs, m.chan), (u: nat) => isLocal(u) && !(m in s.unjoined && u != m.user), Joined(m.chan, m.user)))
  }

  /** Enters a member and marks it if the channel delays joins; a mark of zero is no mark. */
  function Enter(s: State, m: Memb, now: nat): State
  {
    s.(membs := s.membs + [m], unjoined := if m.chan in s.delayed && now != 0 then s.unjoined[m := now] else s.unjoined)
  }

  function JoinChannel(isLocal: nat -> bool, s: State, m: Memb, now: nat): State
  {
    if m in s.membs then s
    else
      var announced := AnnounceJoin(isLocal, Enter(s, m, now), m);
      if isLocal(m.user) then SendNames(announced, m.user, m.chan) else announced
  }

  /** Those who must not see a member leave because they never saw them arrive. */
  function Excepts(isLocal: nat -> bool, s: State, m: Memb): set<nat>
  {
    if m in s.unjoined then set u | u in UsersOf(s.membs, m.chan) && u != m.user && isLocal(u) else {}
  }

  function LeaveChannel(isLocal: nat -> bool, s: State, m: Memb, event: Event): State
  {
    if m !in s.membs then s
    else
      var sent := Write(isLocal, s.(unjoined := s.unjoined - {m}), m.chan, Excepts(isLocal, s, m), event);
      sent.(membs := Keep(s.membs, (x: Memb) => x != m))
  }

  /** A message to a channel; `exempt` are those whom it does not reach, by a hook or because it is only for some ranks. */
  function Speak(isLocal: nat -> bool, s: State, m: Memb, exempt: set<nat>): State
  {
    var shown := Reveal(isLocal, s, m);
    Write(isLocal, shown, m.chan, exempt + {m.user}, if m in s.membs then Spoke(m.chan, m.user) else SpokeFromOutside(m.chan, m.user))
  }

  function RevealAll(isLocal: nat -> bool, s: State, chan: nat, users: seq<nat>): State
  {
    if users == [] then s
    else Reveal(isLocal, RevealAll(isLocal, s, chan, users[..|users| - 1]), Memb(chan, users[|users| - 1]))
  }

  function SetDelay(isLocal: nat -> bool, s: State, chan: nat, adding: bool): State
  {
    if (chan in s.delayed) == adding then s
    else
      var changed := s.(delayed := if adding then s.delayed + {chan} else s.delayed - {chan});
      RevealAll(isLocal, changed, chan, UsersOf(s.membs, chan))
  }

  /** The local users of a list, each at its first occurrence, without those to skip. */
  function Visit(isLocal: nat -> bool, users: seq<nat>, skip: set<nat>): (r: seq<nat>)
    ensures forall u :: u in r <==> u in users && isLocal(u) && u !in skip
  {
    if users == [] then []
    else
      var front, last := users[..|users| - 1], users[|users| - 1];
      assert forall u :: u in users <==> u in front || u == last;
      Visit(isLocal, front, skip) + if isLocal(last) && last !in skip && last !in front then [last] else []
  }

  /** Everyone in the channels of the memberships, channel after channel. */
  function MembersOf(membs: seq<Memb>, included: seq<Memb>): (r: seq<nat>)
    ensures forall u :: u in r <==> exists m :: m in included && Memb(m.chan, u) in membs
  {
    if included == [] then []
    else
      var front, last := included[..|included| - 1], included[|included| - 1];
      assert forall m :: m in included <==> m in front || m == last;
      MembersOf(membs, front) + UsersOf(membs, last.chan)
  }

  /** Those who hear of a nick change or quit of `user`: the members of the channels where the user is not hidden. */
  function Neighbors(isLocal: nat -> bool, s: State, user: nat): seq<nat>
  {
    Visit(isLocal, MembersOf(s.membs, Keep(s.membs, (m: Memb) => m.user == user && m !in s.unjoined)), {user})
  }

  function ChangeNick(isLocal: nat -> bool, s: State, user: nat): State
  {
    s.(log := s.log + Broadcast((if isLocal(user) then [user] else []) + Neighbors(isLocal, s, user), _ => true, ChangedNick(user)))
  }

  /** The memberships of everyone but a user. */
  function Others(membs: seq<Memb>, user: nat): seq<Memb>
  {
    Keep(membs, (m: Memb) => m.user != user)
  }

  function QuitUser(isLocal: nat -> bool, s: State, user: nat): State
  {
    State(Others(s.membs, user), map m | m in s.unjoined && m.user != user :: s.unjoined[m], s.delayed,
          s.log + (if isLocal(user) then [Delivery(user, ClosingLink)] else [])
                + Broadcast(Neighbors(isLocal, s, user), _ => true, HasQuit(user)))
  }

  // ----- the invariant

  ghost predicate WellFormed(s: State)
  {
    NoDuplicates(s.membs) && forall m :: m in s.unjoined ==> m in s.membs && s.unjoined[m] != 0
  }

  /** The members that a client should know of: those of its channels that are not hidden. */
  ghost predicate Visible(s: State, me: nat, m: Memb)
  {
    Memb(m.chan, me) in s.membs && m in s.membs && m !in s.unjoined
  }

  /** Every local client's picture is right. */
  ghost predicate PicturesRight(isLocal: nat -> bool, s: State)
  {
    forall me, m: Memb {:trigger m in View(s.log, me)} :: isLocal(me) && m.user != me ==> (m in View(s.log, me) <==> Visible(s, me, m))
  }

  ghost predicate Consistent(isLocal: nat -> bool, s: State)
  {
    WellFormed(s) && Coherent(s.log) && PicturesRight(isLocal, s)
  }

  /** Only channels with mode D hide anyone. */
  ghost predicate OnlyDelayedHide(s: State)
  {
    forall m :: m in s.unjoined ==> m.chan in s.delayed
  }

  lemma WriteView(isLocal: nat -> bool, s: State, chan: nat, except: set<nat>, event: Event, me: nat)
    requires WellFormed(s)
    ensures View(Write(isLocal, s, chan, except, event).log, me) ==
            if Memb(chan, me) in s.membs && isLocal(me) && me !in except then Learn(View(s.log, me), me, event) else View(s.log, me)
  {
    UsersOfNoDuplicates(s.membs, chan);
    BroadcastView(s.log, UsersOf(s.membs, chan), (u: nat) => isLocal(u) && u !in except, event, me);
  }

  lemma WriteCoherent(isLocal: nat -> bool, s: State, chan: nat, except: set<nat>, event: Event)
    requires WellFormed(s) && Coherent(s.log)
    requires forall u :: Memb(chan, u) in s.membs && isLocal(u) && u !in except ==> Sensible(View(s.log, u), u, event)
    ensures Coherent(Write(isLocal, s, chan, except, event).log)
  {
    UsersOfNoDuplicates(s.membs, chan);
    BroadcastCoherent(s.log, UsersOf(s.membs, chan), (u: nat) => isLocal(u) && u !in except, event);
  }

  lemma RevealKeeps(isLocal: nat -> bool, s: State, m: Memb)
    requires Consistent(isLocal, s)
    ensures Consistent(isLocal, Reveal(isLocal, s, m))
  {
    hide View, Coherent, Broadcast, NamesReply, UsersOf, Keep;
    if m in s.membs && m in s.unjoined {
      var s', event := Reveal(isLocal, s, m), Joined(m.chan, m.user);
      var shown := s.(unjoined := s.unjoined - {m});
      forall me | true
        ensures View(s'.log, me) == if Memb(m.chan, me) in s.membs && isLocal(me) && me != m.user then Learn(View(s.log, me), me, event) else View(s.log, me)
      {
        WriteView(isLocal, shown, m.chan, {m.user}, event, me);
      }
      WriteCoherent(isLocal, shown, m.chan, {m.user}, event);
    }
  }

  /** What the asking user learns from a NAMES reply; nobody else learns anything. */
  lemma SendNamesView(s: State, me: nat, chan: nat, o: nat, m: Memb)
    ensures m in View(SendNames(s, me, chan).log, o) <==>
            m in View(s.log, o) || (o == me && m.chan == chan && m in s.membs && (m.user == me || m !in s.unjoined))
    ensures Coherent(s.log) ==> Coherent(SendNames(s, me, chan).log)
  {
    hide View, Coherent, NamesReply, Keep;
    NamesReplyView(s.log, me, chan, UsersOf(s.membs, chan), (u: nat) => u == me || Memb(chan, u) !in s.unjoined, o);
    assert m == Memb(m.chan, m.user);
  }

  lemma SendNamesKeeps(isLocal: nat -> bool, s: State, me: nat, chan: nat)
    requires Consistent(isLocal, s) && Memb(chan, me) in s.membs
    ensures Consistent(isLocal, SendNames(s, me, chan))
  {
    hide View, Coherent, NamesReply, UsersOf, Keep;
    var s' := SendNames(s, me, chan);
    forall o, m: Memb | isLocal(o) && m.user != o
      ensures m in View(s'.log, o) <==> Visible(s', o, m)
    {
      SendNamesView(s, me, chan, o, m);
    }
    SendNamesView(s, me, chan, me, Memb(chan, me));
  }

  /** A channel with a newcomer, before anyone is told: all pictures but those of the channel are right. */
  ghost predicate NewcomerUntold(isLocal: nat -> bool, s: State, m: Memb)
  {
    && WellFormed(s) && Coherent(s.log) && m in s.membs
    && (forall me, x: Memb {:trigger x in View(s.log, me)} :: isLocal(me) && x.user != me ==>
          (x in View(s.log, me) <==> Visible(s, me, x) && x != m && !(me == m.user && x.chan == m.chan)))
  }

  lemma EnterLeavesUntold(isLocal: nat -> bool, s: State, m: Memb, now: nat)
    requires Consistent(isLocal, s) && m !in s.membs
    ensures NewcomerUntold(isLocal, Enter(s, m, now), m)
  {
    var s' := Enter(s, m, now);
    assert forall x :: x in s'.membs <==> x in s.membs || x == m;
  }

  lemma AnnounceView(isLocal: nat -> bool, s: State, m: Memb, me: nat)
    requires WellFormed(s)
    ensures View(AnnounceJoin(isLocal, s, m).log, me) ==
            if Memb(m.chan, me) in s.membs && isLocal(me) && !(m in s.unjoined && me != m.user)
            then View(s.log, me) + {m} else View(s.log, me)
  {
    UsersOfNoDuplicates(s.membs, m.chan);
    BroadcastView(s.log, UsersOf(s.membs, m.chan), (u: nat) => isLocal(u) && !(m in s.unjoined && u != m.user), Joined(m.chan, m.user), me);
  }

  lemma AnnounceCoherent(isLocal: nat -> bool, s: State, m: Memb)
    requires NewcomerUntold(isLocal, s, m)
    ensures Coherent(AnnounceJoin(isLocal, s, m).log)
  {
    UsersOfNoDuplicates(s.membs, m.chan);
    BroadcastCoherent(s.log, UsersOf(s.membs, m.chan), (u: nat) => isLocal(u) && !(m in s.unjoined && u != m.user), Joined(m.chan, m.user));
  }

  /** The others learn of a newcomer by JOIN unless hidden, the newcomer of the others by NAMES. */
  lemma JoinKeeps(isLocal: nat -> bool, s: State, m: Memb, now: nat)
    requires Consistent(isLocal, s)
    ensures Consistent(isLocal, JoinChannel(isLocal, s, m, now))
  {
    hide View, Coherent, Broadcast, NamesReply, UsersOf, Keep;
    if m !in s.membs {
      EnterLeavesUntold(isLocal, s, m, now);
      var entered := Enter(s, m, now);
      var told := AnnounceJoin(isLocal, entered, m);
      forall me | true
        ensures View(told.log, me) == if Memb(m.chan, me) in entered.membs && isLocal(me) && !(m in entered.unjoined && me != m.user)
                                      then View(entered.log, me) + {m} else View(entered.log, me)
      {
        AnnounceView(isLocal, entered, m, me);
      }
      AnnounceCoherent(isLocal, entered, m);
      if isLocal(m.user) {
        NamesCompleteJoin(isLocal, told, m);
      }
    }
  }

  /** Everyone but the newcomer has the right picture, and the newcomer knows nobody else on the channel. */
  ghost predicate NewcomerUninformed(isLocal: nat -> bool, s: State, m: Memb)
  {
    && WellFormed(s) && Coherent(s.log) && m in s.membs
    && (forall me, x: Memb {:trigger x in View(s.log, me)} :: isLocal(me) && x.user != me ==>
          (x in View(s.log, me) <==> Visible(s, me, x) && !(me == m.user && x.chan == m.chan)))
  }

  lemma NamesCompleteJoin(isLocal: nat -> bool, s: State, m: Memb)
    requires NewcomerUninformed(isLocal, s, m)
    ensures Consistent(isLocal, SendNames(s, m.user, m.chan))
  {
    hide View, Coherent, NamesReply, UsersOf, Keep;
    var s' := SendNames(s, m.user, m.chan);
    forall o, x: Memb | isLocal(o) && x.user != o
      ensures x in View(s'.log, o) <==> Visible(s', o, x)
    {
      SendNamesView(s, m.user, m.chan, o, x);
    }
    SendNamesView(s, m.user, m.chan, m.user, m);
  }

  /** Leaving: those who knew of the member are told, the others are not. */
  lemma LeaveKeeps(isLocal: nat -> bool, s: State, m: Memb, event: Event)
    requires Consistent(isLocal, s) && (event == Parted(m.chan, m.user) || (event.Kicked? && event == Kicked(m.chan, m.user, event.source)))
    ensures Consistent(isLocal, LeaveChannel(isLocal, s, m, event))
  {
    hide View, Coherent, Broadcast, NamesReply, UsersOf, Keep;
    if m in s.membs {
      var s' := LeaveChannel(isLocal, s, m, event);
      var except := Excepts(isLocal, s, m);
      var shown := s.(unjoined := s.unjoined - {m});
      forall me | true
        ensures View(s'.log, me) == if Memb(m.chan, me) in s.membs && isLocal(me) && me !in except then Learn(View(s.log, me), me, event) else View(s.log, me)
      {
        WriteView(isLocal, shown, m.chan, except, event, me);
      }
      WriteCoherent(isLocal, shown, m.chan, except, event);
      KeepNoDuplicates(s.membs, (x: Memb) => x != m);
    }
  }

  /** By the time a member's message is sent, every recipient knows the member. */
  lemma SpeakKeeps(isLocal: nat -> bool, s: State, m: Memb, exempt: set<nat>)
    requires Consistent(isLocal, s)
    ensures Consistent(isLocal, Speak(isLocal, s, m, exempt))
  {
    hide View, Coherent, Broadcast, NamesReply, UsersOf, Keep;
    RevealKeeps(isLocal, s, m);
    var shown := Reveal(isLocal, s, m);
    var event := if m in s.membs then Spoke(m.chan, m.user) else SpokeFromOutside(m.chan, m.user);
    forall me | true
      ensures View(Speak(isLocal, s, m, exempt).log, me) == View(shown.log, me)
    {
      WriteView(isLocal, shown, m.chan, exempt + {m.user}, event, me);
    }
    WriteCoherent(isLocal, shown, m.chan, exempt + {m.user}, event);
  }

  lemma {:induction false} RevealAllKeeps(isLocal: nat -> bool, s: State, chan: nat, users: seq<nat>)
    requires Consistent(isLocal, s) && forall u :: u in users ==> Memb(chan, u) in s.membs
    ensures var s' := RevealAll(isLocal, s, chan, users);
            && Consistent(isLocal, s') && s'.membs == s.membs && s'.delayed == s.delayed
            && s'.unjoined == map m | m in s.unjoined && !(m.chan == chan && m.user in users) :: s.unjoined[m]
    decreases users
  {
    hide View, Coherent, Broadcast, NamesReply, UsersOf, Keep;
    if users != [] {
      var front, last := users[..|users| - 1], users[|users| - 1];
      assert forall u :: u in users <==> u in front || u == last;
      RevealAllKeeps(isLocal, s, chan, front);
      RevealKeeps(isLocal, RevealAll(isLocal, s, chan, front), Memb(chan, last));
    }
  }

  /** Changing mode D leaves nobody on the channel hidden. */
  lemma SetDelayKeeps(isLocal: nat -> bool, s: State, chan: nat, adding: bool)
    requires Consistent(isLocal, s) && OnlyDelayedHide(s)
    ensures Consistent(isLocal, SetDelay(isLocal, s, chan, adding)) && OnlyDelayedHide(SetDelay(isLocal, s, chan, adding))
  {
    if (chan in s.delayed) != adding {
      var changed := s.(delayed := if adding then s.delayed + {chan} else s.delayed - {chan});
      RevealAllKeeps(isLocal, changed, chan, UsersOf(s.membs, chan));
    }
  }

  lemma {:induction false} VisitNoDuplicates(isLocal: nat -> bool, users: seq<nat>, visited: set<nat>)
    ensures NoDuplicates(Visit(isLocal, users, visited))
    decreases users
  {
    if users != [] {
      VisitNoDuplicates(isLocal, users[..|users| - 1], visited);
    }
  }

  /** The neighbours of a user are the other local clients that know the user from some channel. */
  lemma NeighborsKnowUser(isLocal: nat -> bool, s: State, user: nat, me: nat)
    requires Consistent(isLocal, s)
    ensures NoDuplicates(Neighbors(isLocal, s, user)) && user !in Neighbors(isLocal, s, user)
    ensures me in Neighbors(isLocal, s, user) <==> me != user && isLocal(me) && exists m :: m in View(s.log, me) && m.user == user
  {
    hide View, Coherent;
    var included := Keep(s.membs, (m: Memb) => m.user == user && m !in s.unjoined);
    VisitNoDuplicates(isLocal, MembersOf(s.membs, included), {user});
    if me != user && isLocal(me) {
      forall m: Memb | m.user == user
        ensures m in View(s.log, me) <==> m in included && Memb(m.chan, me) in s.membs
      {
        assert m in View(s.log, me) <==> Visible(s, me, m);
      }
    }
  }

  lemma ChangeNickKeeps(isLocal: nat -> bool, s: State, user: nat)
    requires Consistent(isLocal, s)
    ensures Consistent(isLocal, ChangeNick(isLocal, s, user))
  {
    hide View, Coherent, Broadcast, Neighbors;
    var told := (if isLocal(user) then [user] else []) + Neighbors(isLocal, s, user);
    NeighborsKnowUser(isLocal, s, user, user);
    assert NoDuplicates(told);
    forall me | me in told
      ensures Sensible(View(s.log, me), me, ChangedNick(user))
    {
      NeighborsKnowUser(isLocal, s, user, me);
    }
    BroadcastCoherent(s.log, told, _ => true, ChangedNick(user));
    forall me | true
      ensures View(ChangeNick(isLocal, s, user).log, me) == View(s.log, me)
    {
      BroadcastView(s.log, told, _ => true, ChangedNick(user), me);
    }
  }

  /** What is sent when a user quits. */
  function QuitLog(isLocal: nat -> bool, s: State, user: nat): seq<Delivery>
  {
    s.log + (if isLocal(user) then [Delivery(user, ClosingLink)] else [])
  }

  lemma QuitLogView(isLocal: nat -> bool, s: State, user: nat, me: nat)
    requires Coherent(s.log)
    ensures View(QuitLog(isLocal, s, user), me) == if me == user && isLocal(user) then {} else View(s.log, me)
    ensures Coherent(QuitLog(isLocal, s, user))
  {
    AppendDelivery(s.log, Delivery(user, ClosingLink), me);
    assert s.log + [] == s.log;
  }

  lemma QuitKeeps(isLocal: nat -> bool, s: State, user: nat)
    requires Consistent(isLocal, s)
    ensures Consistent(isLocal, QuitUser(isLocal, s, user))
  {
    var s', told, log := QuitUser(isLocal, s, user), Neighbors(isLocal, s, user), QuitLog(isLocal, s, user);
    hide View, Coherent, Broadcast, Neighbors, Keep;
    NeighborsKnowUser(isLocal, s, user, user);
    QuitLogView(isLocal, s, user, user);
    forall me | true
      ensures View(s'.log, me) == if me == user && isLocal(me) then {} else set m | m in View(s.log, me) && (isLocal(me) ==> m.user != user)
      ensures me in told ==> Sensible(View(log, me), me, HasQuit(user))
    {
      NeighborsKnowUser(isLocal, s, user, me);
      QuitLogView(isLocal, s, user, me);
      BroadcastView(log, told, _ => true, HasQuit(user), me);
    }
    BroadcastCoherent(log, told, _ => true, HasQuit(user));
    KeepNoDuplicates(s.membs, (m: Memb) => m.user != user);
  }

  // ----- whole runs

  datatype Step =
    | Join(m: Memb, now: nat)
    | Part(m: Memb)
    | Kick(m: Memb, source: nat)
    | Message(m: Memb, exempt: set<nat>)
    | PrefixMode(m: Memb)
    | SetMode(chan: nat, adding: bool)
    | Names(me: nat, chan: nat)
    | Nick(user: nat)
    | Quit(user: nat)

  function Perform(isLocal: nat -> bool, s: State, step: Step): State
  {
    match step
    case Join(m, now) => JoinChannel(isLocal, s, m, now)
    case Part(m) => LeaveChannel(isLocal, s, m, Parted(m.chan, m.user))
    case Kick(m, source) => LeaveChannel(isLocal, s, m, Kicked(m.chan, m.user, source))
    case Message(m, exempt) => Speak(isLocal, s, m, exempt)
    case PrefixMode(m) => Reveal(isLocal, s, m)
    case SetMode(chan, adding) => SetDelay(isLocal, s, chan, adding)
    case Names(me, chan) => if isLocal(me) && Memb(chan, me) in s.membs then SendNames(s, me, chan) else s
    case Nick(user) => ChangeNick(isLocal, s, user)
    case Quit(user) => QuitUser(isLocal, s, user)
  }

  function Run(isLocal: nat -> bool, steps: seq<Step>): State
  {
    if steps == [] then State([], map[], {}, [])
    else Perform(isLocal, Run(isLocal, steps[..|steps| - 1]), steps[|steps| - 1])
  }

  lemma PerformKeeps(isLocal: nat -> bool, s: State, step: Step)
    requires Consistent(isLocal, s) && OnlyDelayedHide(s)
    ensures Consistent(isLocal, Perform(isLocal, s, step)) && OnlyDelayedHide(Perform(isLocal, s, step))
  {
    hide Consistent;
    match step
    case Join(m, now) => JoinKeeps(isLocal, s, m, now);
    case Part(m) => LeaveKeeps(isLocal, s, m, Parted(m.chan, m.user));
    case Kick(m, source) => LeaveKeeps(isLocal, s, m, Kicked(m.chan, m.user, source));
    case Message(m, exempt) => SpeakKeeps(isLocal, s, m, exempt);
    case PrefixMode(m) => RevealKeeps(isLocal, s, m);
    case SetMode(chan, adding) => SetDelayKeeps(isLocal, s, chan, adding);
    case Names(me, chan) => if isLocal(me) && Memb(chan, me) in s.membs { SendNamesKeeps(isLocal, s, me, chan); }
    case Nick(user) => ChangeNickKeeps(isLocal, s, user);
    case Quit(user) => QuitKeeps(isLocal, s, user);
  }

  /** In every run each client's picture is right, every delivery made sense, and only channels with mode D hide anyone. */
  lemma {:induction false} RunConsistent(isLocal: nat -> bool, steps: seq<Step>)
    ensures Consistent(isLocal, Run(isLocal, steps)) && OnlyDelayedHide(Run(isLocal, steps))
    decreases steps
  {
    if steps != [] {
      RunConsistent(isLocal, steps[..|steps| - 1]);
      PerformKeeps(isLocal, Run(isLocal, steps[..|steps| - 1]), steps[|steps| - 1]);
    }
  }

  /** An event that tells client `me` that `m` is not on the channel any more, or takes `me` off it. */
  predicate EndsStay(m: Memb, me: nat, event: Event)
  {
    match event
    case Parted(c, who) => c == m.chan && (who == m.user || who == me)
    case Kicked(c, who, _) => c == m.chan && (who == m.user || who == me)
    case HasQuit(who) => who == m.user
    case ClosingLink => true
    case _ => false
  }

  lemma {:induction false} CoherentPrefix(log: seq<Delivery>, n: nat)
    requires Coherent(log) && n < |log|
    ensures Coherent(log[..n]) && Sensible(View(log[..n], log[n].to), log[n].to, log[n].event)
    decreases log
  {
    if n < |log| - 1 {
      CoherentPrefix(log[..|log| - 1], n);
      assert log[..|log| - 1][..n] == log[..n];
    }
  }

  lemma {:induction false} KnownUntilStayEnds(log: seq<Delivery>, me: nat, m: Memb, i: nat, n: nat)
    requires i < n <= |log| && log[i] == Delivery(me, Joined(m.chan, m.user))
    requires forall k :: i < k < n && log[k].to == me ==> !EndsStay(m, me, log[k].event)
    ensures m in View(log[..n], me)
    decreases n
  {
    assert log[..n] == log[..n - 1] + [log[n - 1]];
    AppendDelivery(log[..n - 1], log[n - 1], me);
    if n - 1 > i {
      KnownUntilStayEnds(log, me, m, i, n - 1);
    }
  }

  /** A client receives a member's JOIN at most once per stay: between two of them it was told that the stay had ended. */
  lemma JoinOncePerStay(isLocal: nat -> bool, steps: seq<Step>, me: nat, m: Memb, i: nat, j: nat)
    requires m.user != me && i < j < |Run(isLocal, steps).log|
    requires Run(isLocal, steps).log[i] == Delivery(me, Joined(m.chan, m.user)) == Run(isLocal, steps).log[j]
    ensures exists k :: i < k < j && Run(isLocal, steps).log[k].to == me && EndsStay(m, me, Run(isLocal, steps).log[k].event)
  {
    var log := Run(isLocal, steps).log;
    RunConsistent(isLocal, steps);
    CoherentPrefix(log, j);
    hide View, Coherent, Run;
    if forall k :: i < k < j && log[k].to == me ==> !EndsStay(m, me, log[k].event) {
      KnownUntilStayEnds(log, me, m, i, j);
    }
  }

  /** Whatever a client hears about another member of a channel, it was told of that member before. */
  lemma OnlyKnownMembersAreHeard(isLocal: nat -> bool, steps: seq<Step>, n: nat)
    requires n < |Run(isLocal, steps).log|
    ensures var log := Run(isLocal, steps).log;
            var me, event := log[n].to, log[n].event;
            (event.Parted? || event.Kicked? || event.Spoke?) && event.who != me ==> Memb(event.chan, event.who) in View(log[..n], me)
  {
    RunConsistent(isLocal, steps);
    CoherentPrefix(Run(isLocal, steps).log, n);
  }

  lemma {:induction false} BroadcastReaches(users: seq<nat>, gets: nat -> bool, event: Event, u: nat)
    ensures Delivery(u, event) in Broadcast(users, gets, event) <==> u in users && gets(u)
    decreases users
  {
    if users != [] {
      BroadcastReaches(users[..|users| - 1], gets, event, u);
      assert u in users <==> u in users[..|users| - 1] || u == users[|users| - 1];
    }
  }

  /** What a step sends. */
  function Sent(before: State, after: State): seq<Delivery>
  {
    if |before.log| <= |after.log| then after.log[|before.log|..] else []
  }

  lemma RunOneMore(isLocal: nat -> bool, steps: seq<Step>, step: Step)
    ensures Run(isLocal, steps + [step]) == Perform(isLocal, Run(isLocal, steps), step)
  {
    assert (steps + [step])[..|steps|] == steps;
  }

  /** Who is told of a kick: every local member, but only the victim if the victim is hidden. */
  lemma KickReaches(isLocal: nat -> bool, s: State, victim: Memb, source: nat, me: nat)
    requires victim in s.membs && isLocal(me)
    ensures Delivery(me, Kicked(victim.chan, victim.user, source)) in Sent(s, Perform(isLocal, s, Kick(victim, source))) <==>
            Memb(victim.chan, me) in s.membs && (me == victim.user || victim !in s.unjoined)
  {
    var except := Excepts(isLocal, s, victim);
    var event := Kicked(victim.chan, victim.user, source);
    BroadcastReaches(UsersOf(s.membs, victim.chan), (u: nat) => isLocal(u) && u !in except, event, me);
    hide Broadcast, UsersOf, Keep;
    assert Sent(s, Perform(isLocal, s, Kick(victim, source))) ==
           Broadcast(UsersOf(s.membs, victim.chan), (u: nat) => isLocal(u) && u !in except, event);
  }

  /**
   Everyone who is told of a kick is told who kicked, and knows that member exactly when the kicker
   is not hidden: the module only looks at the victim of a kick.
   */
  lemma KickerKnownIff(isLocal: nat -> bool, steps: seq<Step>, kicker: Memb, victim: nat, me: nat)
    requires isLocal(me) && me != kicker.user
    ensures var s := Run(isLocal, steps);
            var s' := Run(isLocal, steps + [Kick(Memb(kicker.chan, victim), kicker.user)]);
            kicker in s.membs && Memb(kicker.chan, victim) in s.membs
            && Delivery(me, Kicked(kicker.chan, victim, kicker.user)) in Sent(s, s') ==>
              (kicker in View(s.log, me) <==> kicker !in s.unjoined)
  {
    RunConsistent(isLocal, steps);
    RunOneMore(isLocal, steps, Kick(Memb(kicker.chan, victim), kicker.user));
    hide Run, View, Coherent, Perform;
    var s := Run(isLocal, steps);
    if kicker in s.membs && Memb(kicker.chan, victim) in s.membs {
      KickReaches(isLocal, s, Memb(kicker.chan, victim), kicker.user, me);
      assert kicker in View(s.log, me) <==> Visible(s, me, kicker);
    }
  }

  /** So a kick by a hidden member of somebody who is not hidden names them to every other local member, none of whom knows them. */
  lemma HiddenKickerIsNamed(isLocal: nat -> bool, steps: seq<Step>, kicker: Memb, victim: nat, me: nat)
    requires isLocal(me) && me != kicker.user
    ensures var s := Run(isLocal, steps);
            var s' := Run(isLocal, steps + [Kick(Memb(kicker.chan, victim), kicker.user)]);
            kicker in s.unjoined && Memb(kicker.chan, victim) in s.membs && Memb(kicker.chan, victim) !in s.unjoined && Memb(kicker.chan, me) in s.membs ==>
              Delivery(me, Kicked(kicker.chan, victim, kicker.user)) in Sent(s, s') && kicker !in View(s.log, me)
  {
    RunConsistent(isLocal, steps);
    RunOneMore(isLocal, steps, Kick(Memb(kicker.chan, victim), kicker.user));
    hide Run, View, Coherent, Perform;
    var s := Run(isLocal, steps);
    if kicker in s.unjoined && Memb(kicker.chan, victim) in s.membs && Memb(kicker.chan, victim) !in s.unjoined && Memb(kicker.chan, me) in s.membs {
      KickReaches(isLocal, s, Memb(kicker.chan, victim), kicker.user, me);
      assert kicker in View(s.log, me) <==> Visible(s, me, kicker);
    }
  }

  lemma JoinEffect(isLocal: nat -> bool, s: State, m: Memb, now: nat)
    requires m !in s.membs
    ensures var s' := JoinChannel(isLocal, s, m, now);
            s'.membs == s.membs + [m] && s'.unjoined == Enter(s, m, now).unjoined && s'.delayed == s.delayed
  {
  }

  /** A channel that got mode D before anyone joined hides its first member from the second. */
  lemma HiddenMemberExists(isLocal: nat -> bool)
    ensures var s := Run(isLocal, [SetMode(0, true)] + [Join(Memb(0, 1), 5)] + [Join(Memb(0, 2), 6)]);
            s.membs == [Memb(0, 1), Memb(0, 2)] && Memb(0, 1) in s.unjoined
  {
    var start := State([], map[], {}, []);
    var s := SetDelay(isLocal, start, 0, true);
    assert s == State([], map[], {0}, []);
    assert Run(isLocal, [SetMode(0, true)]) == s by {
      assert [SetMode(0, true)][..0] == [];
    }
    RunOneMore(isLocal, [SetMode(0, true)], Join(Memb(0, 1), 5));
    RunOneMore(isLocal, [SetMode(0, true)] + [Join(Memb(0, 1), 5)], Join(Memb(0, 2), 6));
    hide Run, JoinChannel, SetDelay;
    JoinEffect(isLocal, s, Memb(0, 1), 5);
    JoinEffect(isLocal, JoinChannel(isLocal, s, Memb(0, 1), 5), Memb(0, 2), 6);
  }

  /** A member who joined before mode D is not hidden from one who joins after it, who is. */
  lemma HiddenKickerExists(isLocal: nat -> bool)
    requires isLocal(1)
    ensures var steps := [Join(Memb(0, 1), 5)] + [SetMode(0, true)] + [Join(Memb(0, 2), 6)];
            var s := Run(isLocal, steps);
            var s' := Run(isLocal, steps + [Kick(Memb(0, 1), 2)]);
            && s.membs == [Memb(0, 1), Memb(0, 2)] && Memb(0, 2) in s.unjoined && Memb(0, 1) !in s.unjoined
            && Delivery(1, Kicked(0, 1, 2)) in Sent(s, s') && Memb(0, 2) !in View(s.log, 1)
  {
    hide Run, JoinChannel, SetDelay, View, Sent, Coherent, PicturesRight, Keep, UsersOf, Consistent;
    var start := State([], map[], {}, []);
    var first, second, third := [Join(Memb(0, 1), 5)], [SetMode(0, true)], [Join(Memb(0, 2), 6)];
    RunOfOne(isLocal, first[0]);
    RunOneMore(isLocal, first, second[0]);
    RunOneMore(isLocal, first + second, third[0]);
    RunConsistent(isLocal, first);
    HiddenKickerIsNamed(isLocal, first + second + third, Memb(0, 2), 1, 1);
    JoinEffect(isLocal, start, Memb(0, 1), 5);
    var joined := JoinChannel(isLocal, start, Memb(0, 1), 5);
    SetDelayEffect(isLocal, joined, 0);
    JoinEffect(isLocal, SetDelay(isLocal, joined, 0, true), Memb(0, 2), 6);
  }

  lemma RunOfOne(isLocal: nat -> bool, step: Step)
    ensures Run(isLocal, [step]) == Perform(isLocal, State([], map[], {}, []), step)
  {
    assert [step][..0] == [];
  }

  lemma SetDelayEffect(isLocal: nat -> bool, s: State, chan: nat)
    requires Consistent(isLocal, s) && chan !in s.delayed && s.unjoined == map[]
    ensures var s' := SetDelay(isLocal, s, chan, true); s'.membs == s.membs && s'.unjoined == map[] && s'.delayed == s.delayed + {chan}
  {
    RevealAllKeeps(isLocal, s.(delayed := s.delayed + {chan}), chan, UsersOf(s.membs, chan));
  }

  // ----- exactly what a step sends and changes

  /** Some channel has both users, and `user` is not hidden there. */
  ghost predicate SeesSomewhere(s: State, me: nat, user: nat)
  {
    exists chan :: Memb(chan, user) in s.membs && Memb(chan, user) !in s.unjoined && Memb(chan, me) in s.membs
  }

  /** A JOIN of a hidden member is due to every other local member when the member is shown. */
  ghost predicate DueWhenShown(isLocal: nat -> bool, s: State, m: Memb, d: Delivery)
  {
    m in s.unjoined && d.event == Joined(m.chan, m.user) && isLocal(d.to) && Memb(m.chan, d.to) in s.membs && d.to != m.user
  }

  /** Whether a delivery is due in a step. */
  ghost predicate Due(isLocal: nat -> bool, s: State, step: Step, d: Delivery)
  {
    match step
    case Join(m, now) =>
      m !in s.membs && isLocal(d.to) &&
      ((d.event == Joined(m.chan, m.user)
        && (d.to == m.user || (Memb(m.chan, d.to) in s.membs && !(m.chan in s.delayed && now != 0))))
       || (d.to == m.user && d.event.Listed? && d.event.chan == m.chan
           && (d.event.who == m.user || (Memb(m.chan, d.event.who) in s.membs && Memb(m.chan, d.event.who) !in s.unjoined))))
    case Part(m) =>
      m in s.membs && isLocal(d.to) && d.event == Parted(m.chan, m.user)
      && Memb(m.chan, d.to) in s.membs && (d.to == m.user || m !in s.unjoined)
    case Kick(m, source) =>
      m in s.membs && isLocal(d.to) && d.event == Kicked(m.chan, m.user, source)
      && Memb(m.chan, d.to) in s.membs && (d.to == m.user || m !in s.unjoined)
    case Message(m, exempt) =>
      DueWhenShown(isLocal, s, m, d)
      || (isLocal(d.to) && Memb(m.chan, d.to) in s.membs && d.to != m.user && d.to !in exempt
          && d.event == if m in s.membs then Spoke(m.chan, m.user) else SpokeFromOutside(m.chan, m.user))
    case PrefixMode(m) => DueWhenShown(isLocal, s, m, d)
    case SetMode(chan, adding) =>
      (chan in s.delayed) != adding && d.event.Joined? && d.event.chan == chan && DueWhenShown(isLocal, s, Memb(chan, d.event.who), d)
    case Names(me, chan) =>
      isLocal(me) && Memb(chan, me) in s.membs && d.to == me && d.event.Listed? && d.event.chan == chan
      && Memb(chan, d.event.who) in s.membs && (d.event.who == me || Memb(chan, d.event.who) !in s.unjoined)
    case Nick(user) => isLocal(d.to) && d.event == ChangedNick(user) && (d.to == user || SeesSomewhere(s, d.to, user))
    case Quit(user) =>
      isLocal(d.to) && if d.to == user then d.event == ClosingLink else d.event == HasQuit(user) && SeesSomewhere(s, d.to, user)
  }

  lemma {:induction false} BroadcastCount(users: seq<nat>, gets: nat -> bool, event: Event, d: Delivery)
    requires NoDuplicates(users)
    ensures multiset(Broadcast(users, gets, event))[d] == if d.event == event && d.to in users && gets(d.to) then 1 else 0
    decreases users
  {
    if users != [] {
      var front, last := users[..|users| - 1], users[|users| - 1];
      BroadcastCount(front, gets, event, d);
      assert d.to in users <==> d.to in front || d.to == last;
      assert last !in front;
    }
  }

  lemma {:induction false} NamesCount(to: nat, chan: nat, users: seq<nat>, shown: nat -> bool, d: Delivery)
    requires NoDuplicates(users)
    ensures multiset(NamesReply(to, chan, users, shown))[d] ==
            if d.to == to && d.event.Listed? && d.event.chan == chan && d.event.who in users && shown(d.event.who) then 1 else 0
    decreases users
  {
    if users != [] {
      var front, last := users[..|users| - 1], users[|users| - 1];
      NamesCount(to, chan, front, shown, d);
      assert forall u :: u in users <==> u in front || u == last;
      assert last !in front;
    }
  }

  /** The deliveries of the second state are those of the first and some more. */
  ghost predicate Grows(before: State, after: State)
  {
    |before.log| <= |after.log| && after.log[..|before.log|] == before.log
  }

  lemma GrowsBy(before: State, after: State, more: seq<Delivery>)
    requires after.log == before.log + more
    ensures Grows(before, after) && Sent(before, after) == more
  {
  }

  lemma SentThrough(before: State, between: State, after: State, d: Delivery)
    requires Grows(before, between) && Grows(between, after)
    ensures Grows(before, after)
    ensures multiset(Sent(before, after))[d] == multiset(Sent(before, between))[d] + multiset(Sent(between, after))[d]
  {
    assert after.log == between.log + Sent(between, after) && between.log == before.log + Sent(before, between);
    assert Sent(before, after) == Sent(before, between) + Sent(between, after);
  }

  lemma WriteSends(isLocal: nat -> bool, s: State, chan: nat, except: set<nat>, event: Event, d: Delivery)
    requires WellFormed(s)
    ensures Grows(s, Write(isLocal, s, chan, except, event))
    ensures multiset(Sent(s, Write(isLocal, s, chan, except, event)))[d] ==
            if d.event == event && isLocal(d.to) && Memb(chan, d.to) in s.membs && d.to !in except then 1 else 0
  {
    UsersOfNoDuplicates(s.membs, chan);
    var users, gets := UsersOf(s.membs, chan), (u: nat) => isLocal(u) && u !in except;
    BroadcastCount(users, gets, event, d);
    GrowsBy(s, Write(isLocal, s, chan, except, event), Broadcast(users, gets, event));
  }

  lemma RevealSends(isLocal: nat -> bool, s: State, m: Memb, d: Delivery)
    requires WellFormed(s)
    ensures var s' := Reveal(isLocal, s, m);
            && Grows(s, s') && multiset(Sent(s, s'))[d] == (if DueWhenShown(isLocal, s, m, d) then 1 else 0)
            && s'.membs == s.membs && s'.delayed == s.delayed && s'.unjoined == s.unjoined - {m} && WellFormed(s')
  {
    if m in s.unjoined {
      WriteSends(isLocal, s.(unjoined := s.unjoined - {m}), m.chan, {m.user}, Joined(m.chan, m.user), d);
    } else {
      GrowsBy(s, s, []);
      assert s.unjoined - {m} == s.unjoined;
    }
  }

  lemma {:induction false} RevealAllSends(isLocal: nat -> bool, s: State, chan: nat, users: seq<nat>, d: Delivery)
    requires WellFormed(s) && NoDuplicates(users)
    ensures var s' := RevealAll(isLocal, s, chan, users);
            && Grows(s, s') && s'.membs == s.membs && s'.delayed == s.delayed && WellFormed(s')
            && (forall m :: m in s'.unjoined <==> m in s.unjoined && !(m.chan == chan && m.user in users))
            && multiset(Sent(s, s'))[d] ==
               if d.event.Joined? && d.event.chan == chan && d.event.who in users && DueWhenShown(isLocal, s, Memb(chan, d.event.who), d) then 1 else 0
    decreases users
  {
    hide Reveal;
    if users == [] {
      GrowsBy(s, s, []);
    } else {
      var front, last := users[..|users| - 1], users[|users| - 1];
      assert forall u :: u in users <==> u in front || u == last;
      assert last !in front;
      RevealAllSends(isLocal, s, chan, front, d);
      var between := RevealAll(isLocal, s, chan, front);
      RevealSends(isLocal, between, Memb(chan, last), d);
      SentThrough(s, between, RevealAll(isLocal, s, chan, users), d);
    }
  }

  lemma NamesSends(s: State, me: nat, chan: nat, d: Delivery)
    requires WellFormed(s)
    ensures Grows(s, SendNames(s, me, chan))
    ensures multiset(Sent(s, SendNames(s, me, chan)))[d] ==
            if d.to == me && d.event.Listed? && d.event.chan == chan && Memb(chan, d.event.who) in s.membs
               && (d.event.who == me || Memb(chan, d.event.who) !in s.unjoined) then 1 else 0
  {
    UsersOfNoDuplicates(s.membs, chan);
    var users, shown := UsersOf(s.membs, chan), (u: nat) => u == me || Memb(chan, u) !in s.unjoined;
    NamesCount(me, chan, users, shown, d);
    GrowsBy(s, SendNames(s, me, chan), NamesReply(me, chan, users, shown));
  }

  lemma JoinSends(isLocal: nat -> bool, s: State, m: Memb, now: nat, d: Delivery)
    requires WellFormed(s)
    ensures Grows(s, JoinChannel(isLocal, s, m, now))
    ensures multiset(Sent(s, JoinChannel(isLocal, s, m, now)))[d] == if Due(isLocal, s, Join(m, now), d) then 1 else 0
  {
    hide Broadcast, NamesReply, UsersOf, NoDuplicates;
    if m in s.membs {
      GrowsBy(s, s, []);
    } else {
      var entered := Enter(s, m, now);
      EnteredWellFormed(s, m, now);
      assert forall x :: x in entered.membs <==> x in s.membs || x == m;
      var users, gets := UsersOf(entered.membs, m.chan), (u: nat) => isLocal(u) && !(m in entered.unjoined && u != m.user);
      UsersOfNoDuplicates(entered.membs, m.chan);
      BroadcastCount(users, gets, Joined(m.chan, m.user), d);
      var announced := AnnounceJoin(isLocal, entered, m);
      GrowsBy(s, announced, Broadcast(users, gets, Joined(m.chan, m.user)));
      if isLocal(m.user) {
        NamesSends(announced, m.user, m.chan, d);
        SentThrough(s, announced, SendNames(announced, m.user, m.chan), d);
      }
    }
  }

  lemma EnteredWellFormed(s: State, m: Memb, now: nat)
    requires WellFormed(s) && m !in s.membs
    ensures WellFormed(Enter(s, m, now)) && NoDuplicates(Enter(s, m, now).membs)
  {
  }

  lemma LeaveSends(isLocal: nat -> bool, s: State, m: Memb, event: Event, d: Delivery)
    requires WellFormed(s)
    ensures Grows(s, LeaveChannel(isLocal, s, m, event))
    ensures multiset(Sent(s, LeaveChannel(isLocal, s, m, event)))[d] ==
            if m in s.membs && isLocal(d.to) && d.event == event && Memb(m.chan, d.to) in s.membs && (d.to == m.user || m !in s.unjoined) then 1 else 0
  {
    if m in s.membs {
      var shown := s.(unjoined := s.unjoined - {m});
      WriteSends(isLocal, shown, m.chan, Excepts(isLocal, s, m), event, d);
    } else {
      GrowsBy(s, s, []);
    }
  }

  lemma SpeakSends(isLocal: nat -> bool, s: State, m: Memb, exempt: set<nat>, d: Delivery)
    requires WellFormed(s)
    ensures Grows(s, Speak(isLocal, s, m, exempt))
    ensures multiset(Sent(s, Speak(isLocal, s, m, exempt)))[d] == if Due(isLocal, s, Message(m, exempt), d) then 1 else 0
  {
    hide Reveal, Write;
    var shown := Reveal(isLocal, s, m);
    RevealSends(isLocal, s, m, d);
    WriteSends(isLocal, shown, m.chan, exempt + {m.user}, if m in s.membs then Spoke(m.chan, m.user) else SpokeFromOutside(m.chan, m.user), d);
    SentThrough(s, shown, Speak(isLocal, s, m, exempt), d);
  }

  lemma NeighborIff(isLocal: nat -> bool, s: State, user: nat, me: nat)
    ensures NoDuplicates(Neighbors(isLocal, s, user)) && user !in Neighbors(isLocal, s, user)
    ensures me in Neighbors(isLocal, s, user) <==> me != user && isLocal(me) && SeesSomewhere(s, me, user)
  {
    var included := Keep(s.membs, (m: Memb) => m.user == user && m !in s.unjoined);
    VisitNoDuplicates(isLocal, MembersOf(s.membs, included), {user});
    if m :| m in included && Memb(m.chan, me) in s.membs {
      assert m == Memb(m.chan, user);
    }
    if chan :| Memb(chan, user) in s.membs && Memb(chan, user) !in s.unjoined && Memb(chan, me) in s.membs {
      assert Memb(chan, user) in included;
    }
  }

  lemma NickSends(isLocal: nat -> bool, s: State, user: nat, d: Delivery)
    ensures Grows(s, ChangeNick(isLocal, s, user))
    ensures multiset(Sent(s, ChangeNick(isLocal, s, user)))[d] == if Due(isLocal, s, Nick(user), d) then 1 else 0
  {
    hide Neighbors, Broadcast;
    var told := (if isLocal(user) then [user] else []) + Neighbors(isLocal, s, user);
    NeighborIff(isLocal, s, user, d.to);
    assert NoDuplicates(told);
    BroadcastCount(told, _ => true, ChangedNick(user), d);
    GrowsBy(s, ChangeNick(isLocal, s, user), Broadcast(told, _ => true, ChangedNick(user)));
  }

  lemma QuitSends(isLocal: nat -> bool, s: State, user: nat, d: Delivery)
    ensures Grows(s, QuitUser(isLocal, s, user))
    ensures multiset(Sent(s, QuitUser(isLocal, s, user)))[d] == if Due(isLocal, s, Step.Quit(user), d) then 1 else 0
  {
    hide Neighbors, Broadcast, Others;
    var told, closing := Neighbors(isLocal, s, user), if isLocal(user) then [Delivery(user, ClosingLink)] else [];
    NeighborIff(isLocal, s, user, d.to);
    BroadcastCount(told, _ => true, HasQuit(user), d);
    assert s.log + closing + Broadcast(told, _ => true, HasQuit(user)) == s.log + (closing + Broadcast(told, _ => true, HasQuit(user)));
    GrowsBy(s, QuitUser(isLocal, s, user), closing + Broadcast(told, _ => true, HasQuit(user)));
  }

  /** A step sends every delivery that is due, once, and nothing else. */
  lemma PerformSends(isLocal: nat -> bool, s: State, step: Step, d: Delivery)
    requires WellFormed(s)
    ensures Grows(s, Perform(isLocal, s, step))
    ensures multiset(Sent(s, Perform(isLocal, s, step)))[d] == if Due(isLocal, s, step, d) then 1 else 0
  {
    hide Grows, Sent, JoinChannel, LeaveChannel, Speak, SetDelay, ChangeNick, QuitUser, SendNames, DueWhenShown, SeesSomewhere, WellFormed;
    match step
    case Join(m, now) => JoinSends(isLocal, s, m, now, d);
    case Part(m) => LeaveSends(isLocal, s, m, Parted(m.chan, m.user), d);
    case Kick(m, source) => LeaveSends(isLocal, s, m, Kicked(m.chan, m.user, source), d);
    case Message(m, exempt) => SpeakSends(isLocal, s, m, exempt, d);
    case PrefixMode(m) => RevealSends(isLocal, s, m, d);
    case SetMode(chan, adding) => SetModeSends(isLocal, s, chan, adding, d);
    case Names(me, chan) =>
      if isLocal(me) && Memb(chan, me) in s.membs {
        NamesSends(s, me, chan, d);
      } else {
        GrowsBy(s, s, []);
      }
    case Nick(user) => NickSends(isLocal, s, user, d);
    case Quit(user) => QuitSends(isLocal, s, user, d);
  }

  lemma SetModeSends(isLocal: nat -> bool, s: State, chan: nat, adding: bool, d: Delivery)
    requires WellFormed(s)
    ensures Grows(s, SetDelay(isLocal, s, chan, adding))
    ensures multiset(Sent(s, SetDelay(isLocal, s, chan, adding)))[d] == if Due(isLocal, s, SetMode(chan, adding), d) then 1 else 0
  {
    hide RevealAll, UsersOf;
    if (chan in s.delayed) == adding {
      GrowsBy(s, s, []);
    } else {
      var changed := s.(delayed := if adding then s.delayed + {chan} else s.delayed - {chan});
      UsersOfNoDuplicates(s.membs, chan);
      RevealAllSends(isLocal, changed, chan, UsersOf(s.membs, chan), d);
    }
  }

  /** A channel message goes to every local member but its author and those it does not reach. */
  lemma MessageReaches(isLocal: nat -> bool, s: State, m: Memb, exempt: set<nat>, me: nat)
    requires WellFormed(s) && isLocal(me)
    ensures var sent := Sent(s, Perform(isLocal, s, Message(m, exempt)));
            Delivery(me, if m in s.membs then Spoke(m.chan, m.user) else SpokeFromOutside(m.chan, m.user)) in sent <==>
            Memb(m.chan, me) in s.membs && me != m.user && me !in exempt
  {
    PerformSends(isLocal, s, Message(m, exempt), Delivery(me, if m in s.membs then Spoke(m.chan, m.user) else SpokeFromOutside(m.chan, m.user)));
  }

  /** How often a delivery was due in a run. */
  ghost function TimesDue(isLocal: nat -> bool, steps: seq<Step>, d: Delivery): nat
  {
    if steps == [] then 0
    else
      var front := steps[..|steps| - 1];
      TimesDue(isLocal, front, d) + if Due(isLocal, Run(isLocal, front), steps[|steps| - 1], d) then 1 else 0
  }

  /** In every run everything that was due was sent, as often as it was due, and nothing else. */
  lemma {:induction false} RunSends(isLocal: nat -> bool, steps: seq<Step>, d: Delivery)
    ensures multiset(Run(isLocal, steps).log)[d] == TimesDue(isLocal, steps, d)
    decreases steps
  {
    if steps != [] {
      var front, step := steps[..|steps| - 1], steps[|steps| - 1];
      RunSends(isLocal, front, d);
      RunConsistent(isLocal, front);
      hide Due, Perform, Coherent;
      var before, after := Run(isLocal, front), Run(isLocal, steps);
      PerformSends(isLocal, before, step, d);
      assert after.log == before.log + Sent(before, after);
    }
  }

  /** Who is a member after a step. */
  ghost predicate MemberAfter(s: State, step: Step, x: Memb)
  {
    match step
    case Join(m, _) => x in s.membs || x == m
    case Part(m) => x in s.membs && x != m
    case Kick(m, _) => x in s.membs && x != m
    case Quit(user) => x in s.membs && x.user != user
    case _ => x in s.membs
  }

  /** Who is hidden after a step. */
  ghost predicate HiddenAfter(s: State, step: Step, x: Memb)
  {
    match step
    case Join(m, now) => x in s.unjoined || (x == m && m !in s.membs && m.chan in s.delayed && now != 0)
    case Part(m) => x in s.unjoined && x != m
    case Kick(m, _) => x in s.unjoined && x != m
    case Message(m, _) => x in s.unjoined && x != m
    case PrefixMode(m) => x in s.unjoined && x != m
    case SetMode(chan, adding) => x in s.unjoined && (x.chan == chan ==> (chan in s.delayed) == adding)
    case Quit(user) => x in s.unjoined && x.user != user
    case _ => x in s.unjoined
  }

  /** A step changes memberships, marks and modes as it should and in no other way. */
  lemma PerformChanges(isLocal: nat -> bool, s: State, step: Step)
    requires WellFormed(s)
    ensures var s' := Perform(isLocal, s, step);
            && (forall x :: x in s'.membs <==> MemberAfter(s, step, x))
            && (forall x :: x in s'.unjoined <==> HiddenAfter(s, step, x))
            && (forall chan :: chan in s'.delayed <==> if step.SetMode? && step.chan == chan then step.adding else chan in s.delayed)
  {
    hide Broadcast, NamesReply, RevealAll, NoDuplicates, Neighbors, UsersOf;
    match step
    case Join(m, now) =>
      assert forall x :: x in Enter(s, m, now).membs <==> x in s.membs || x == m;
    case SetMode(chan, adding) =>
      if (chan in s.delayed) != adding {
        UsersOfNoDuplicates(s.membs, chan);
        var changed := s.(delayed := if adding then s.delayed + {chan} else s.delayed - {chan});
        RevealAllSends(isLocal, changed, chan, UsersOf(s.membs, chan), Delivery(0, ClosingLink));
      }
    case Part(_) =>
    case Kick(_, _) =>
    case Message(_, _) =>
    case PrefixMode(_) =>
    case Names(_, _) =>
    case Nick(_) =>
    case Quit(_) =>
  }

  // ----- the module and the parts of the core that call it

  class ModuleDelayJoin {
    const isLocal: nat -> bool
    var membs: seq<Memb>
    var unjoined: map<Memb, nat>
    var delayed: set<nat>
    var log: seq<Delivery>

    ghost function Value(): State
      reads this
    {
      State(membs, unjoined, delayed, log)
    }

    constructor (isLocal: nat -> bool)
      ensures this.isLocal == isLocal && Value() == Run(isLocal, [])
    {
      this.isLocal := isLocal;
      membs, unjoined, delayed, log := [], map[], {}, [];
    }

    /** Sends an event to the local members of a channel, except some. */
    method WriteChannel(chan: nat, except: set<nat>, event: Event)
      modifies this`log
      ensures Value() == Write(isLocal, old(Value()), chan, except, event)
    {
      var users := UsersOf(membs, chan);
      ghost var gets := (u: nat) => isLocal(u) && u !in except;
      for i := 0 to |users|
        invariant log == old(log) + Broadcast(users[..i], gets, event)
      {
        assert users[..i + 1][..i] == users[..i];
        if isLocal(users[i]) && users[i] !in except {
          log := log + [Delivery(users[i], event)];
        }
      }
      assert users[..|users|] == users;
    }

    method RevealUser(m: Memb)
      modifies this`unjoined, this`log
      ensures Value() == Reveal(isLocal, old(Value()), m)
    {
      if m !in membs {
        return;
      }
      if m !in unjoined {
        return;
      }
      unjoined := unjoined - {m};
      WriteChannel(m.chan, {m.user}, Joined(m.chan, m.user));
    }

    /** Sets or unsets mode D; the members are shown whenever the mode changes. */
    method OnModeChange(chan: nat, adding: bool) returns (changed: bool)
      modifies this`unjoined, this`log, this`delayed
      ensures changed <==> (chan in old(delayed)) != adding
      ensures Value() == SetDelay(isLocal, old(Value()), chan, adding)
    {
      if (chan in delayed) == adding {
        return false;
      }
      delayed := if adding then delayed + {chan} else delayed - {chan};
      ghost var start := Value();
      var users := UsersOf(membs, chan);
      for i := 0 to |users|
        invariant Value() == RevealAll(isLocal, start, chan, users[..i]) && membs == old(membs)
      {
        assert users[..i + 1][..i] == users[..i];
        RevealUser(Memb(chan, users[i]));
      }
      assert users[..|users|] == users;
      return true;
    }

    /** Who must not be told that a member leaves. */
    method PopulateExcepts(m: Memb) returns (except: set<nat>)
      modifies this`unjoined
      ensures except == Excepts(isLocal, old(Value()), m)
      ensures unjoined == old(unjoined) - {m}
    {
      except := {};
      if m !in unjoined {
        assert unjoined - {m} == unjoined;
        return;
      }
      unjoined := unjoined - {m};
      var users := UsersOf(membs, m.chan);
      for i := 0 to |users|
        invariant except == set u | u in users[..i] && u != m.user && isLocal(u)
      {
        if users[i] != m.user && isLocal(users[i]) {
          except := except + {users[i]};
        }
      }
      assert users[..|users|] == users;
    }

    method Leave(m: Memb, event: Event)
      requires m in membs
      modifies this`membs, this`unjoined, this`log
      ensures Value() == LeaveChannel(isLocal, old(Value()), m, event)
    {
      var except := PopulateExcepts(m);
      WriteChannel(m.chan, except, event);
      membs := Keep(membs, (x: Memb) => x != m);
    }

    method PartUser(m: Memb)
      requires m in membs
      modifies this`membs, this`unjoined, this`log
      ensures Value() == Perform(isLocal, old(Value()), Part(m))
    {
      Leave(m, Parted(m.chan, m.user));
    }

    method KickUser(m: Memb, source: nat)
      requires m in membs
      modifies this`membs, this`unjoined, this`log
      ensures Value() == Perform(isLocal, old(Value()), Kick(m, source))
    {
      Leave(m, Kicked(m.chan, m.user, source));
    }

    /** The hook that drops a JOIN event for a recipient. */
    predicate OnPreEventSend(m: Memb, user: nat)
      reads this
    {
      !(m in unjoined && m.user != user)
    }

    method OnUserJoin(m: Memb, now: nat)
      requires m !in unjoined
      modifies this`unjoined
      ensures unjoined == if m.chan in delayed && now != 0 then old(unjoined)[m := now] else old(unjoined)
    {
      if m.chan in delayed {
        unjoined := if now != 0 then unjoined[m := now] else unjoined - {m};
      }
    }

    /** Sends a JOIN event to the channel; the hook may drop it for each recipient. */
    method SendJoin(m: Memb)
      modifies this`log
      ensures Value() == AnnounceJoin(isLocal, old(Value()), m)
    {
      var users := UsersOf(membs, m.chan);
      ghost var hidden := m in unjoined;
      ghost var marks := unjoined;
      ghost var gets := (u: nat) => isLocal(u) && !(m in marks && u != m.user);
      for i := 0 to |users|
        invariant log == old(log) + Broadcast(users[..i], gets, Joined(m.chan, m.user))
      {
        assert users[..i + 1][..i] == users[..i];
        if isLocal(users[i]) && OnPreEventSend(m, users[i]) {
          log := log + [Delivery(users[i], Joined(m.chan, m.user))];
        }
      }
      assert users[..|users|] == users;
    }

    method ForceJoin(m: Memb, now: nat)
      requires forall x :: x in unjoined ==> x in membs
      modifies this`membs, this`unjoined, this`log
      ensures Value() == Perform(isLocal, old(Value()), Join(m, now))
    {
      if m in membs {
        return;
      }
      membs := membs + [m];
      OnUserJoin(m, now);
      SendJoin(m);
      if isLocal(m.user) {
        NamesTo(m.user, m.chan);
      }
    }

    /** Whether a member is left out of a NAMES reply. */
    predicate OnNamesListItem(issuer: nat, m: Memb)
      reads this
    {
      issuer == m.user || m !in unjoined
    }

    method NamesTo(me: nat, chan: nat)
      modifies this`log
      ensures Value() == SendNames(old(Value()), me, chan)
    {
      var users := UsersOf(membs, chan);
      ghost var marks := unjoined;
      ghost var shown := (u: nat) => u == me || Memb(chan, u) !in marks;
      for i := 0 to |users|
        invariant log == old(log) + NamesReply(me, chan, users[..i], shown)
      {
        assert users[..i + 1][..i] == users[..i];
        if OnNamesListItem(me, Memb(chan, users[i])) {
          log := log + [Delivery(me, Listed(chan, users[i]))];
        }
      }
      assert users[..|users|] == users;
    }

    /** A message to a channel shows its author before it is sent. */
    method ChannelMessage(m: Memb, exempt: set<nat>)
      modifies this`unjoined, this`log
      ensures Value() == Perform(isLocal, old(Value()), Message(m, exempt))
    {
      RevealUser(m);
      WriteChannel(m.chan, exempt + {m.user}, if m in membs then Spoke(m.chan, m.user) else SpokeFromOutside(m.chan, m.user));
    }

    /** Erases the memberships where the source is hidden from the list of channels to tell. */
    method OnBuildNeighborList(chans: seq<Memb>) returns (r: seq<Memb>)
      ensures var marks := unjoined; r == Keep(chans, (m: Memb) => m !in marks)
    {
      hide Keep;
      ghost var marks := unjoined;
      ghost var visible := (m: Memb) => m !in marks;
      KeepNone(visible);
      r := chans;
      var i := 0;
      ghost var n := 0;
      while i < |r|
        invariant 0 <= i <= |r| && n <= |chans|
        invariant r[..i] == Keep(chans[..n], visible) && r[i..] == chans[n..]
        decreases |r| - i
      {
        SameTail(r, i, chans, n);
        KeepOneMore(chans, n, visible);
        if r[i] in unjoined {
          r := r[..i] + r[i + 1..];
        } else {
          assert r[..i + 1] == r[..i] + [r[i]];
          i := i + 1;
        }
        n := n + 1;
      }
      assert chans[..|chans|] == chans && r[..i] == r && chans[n..] == [];
    }

    /** The users to tell of a nick change or quit, each once. */
    method ForEachNeighbor(user: nat) returns (told: seq<nat>)
      ensures told == Neighbors(isLocal, Value(), user)
    {
      var marks := unjoined;
      var chans := Keep(membs, (m: Memb) => m.user == user);
      var included := OnBuildNeighborList(chans);
      KeepTwice(membs, (m: Memb) => m.user == user, (m: Memb) => m !in marks, (m: Memb) => m.user == user && m !in marks);
      told := [];
      ghost var seen: seq<nat> := [];
      hide Visit, MembersOf, Keep, UsersOf;
      VisitNone(isLocal, membs, user);
      for i := 0 to |included|
        invariant seen == MembersOf(membs, included[..i]) && told == Visit(isLocal, seen, {user})
      {
        MembersOneMore(membs, included, i);
        var users := UsersOf(membs, included[i].chan);
        told := VisitUsers(users, user, told, seen);
        seen := seen + users;
      }
      assert included[..|included|] == included;
    }

    /** Adds the local users of one more channel that have not been visited. */
    method VisitUsers(users: seq<nat>, user: nat, visited: seq<nat>, ghost seen: seq<nat>) returns (told: seq<nat>)
      requires visited == Visit(isLocal, seen, {user})
      ensures told == Visit(isLocal, seen + users, {user})
    {
      hide Visit;
      told := visited;
      ghost var list := seen + users;
      assert list[..|seen|] == seen;
      for j := 0 to |users|
        invariant told == Visit(isLocal, list[..|seen| + j], {user})
      {
        VisitOneMore(isLocal, list, |seen| + j, {user});
        if isLocal(users[j]) && users[j] != user && users[j] !in told {
          told := told + [users[j]];
        }
      }
      assert list[..|list|] == list;
    }

    method ChangeNickOf(user: nat)
      modifies this`log
      ensures Value() == Perform(isLocal, old(Value()), Nick(user))
    {
      var told := ForEachNeighbor(user);
      SendTo((if isLocal(user) then [user] else []) + told, ChangedNick(user));
    }

    method Quit(user: nat)
      modifies this`membs, this`unjoined, this`log
      ensures Value() == Perform(isLocal, old(Value()), Step.Quit(user))
    {
      hide Broadcast, Neighbors, Others;
      var told := ForEachNeighbor(user);
      if isLocal(user) {
        log := log + [Delivery(user, ClosingLink)];
      }
      SendTo(told, HasQuit(user));
      membs := Others(membs, user);
      unjoined := map m | m in unjoined && m.user != user :: unjoined[m];
    }

    method SendTo(users: seq<nat>, event: Event)
      modifies this`log
      ensures log == old(log) + Broadcast(users, _ => true, event)
    {
      for i := 0 to |users|
        invariant log == old(log) + Broadcast(users[..i], _ => true, event)
      {
        assert users[..i + 1][..i] == users[..i];
        log := log + [Delivery(users[i], event)];
      }
      assert users[..|users|] == users;
    }
  }

  lemma VisitNone(isLocal: nat -> bool, membs: seq<Memb>, user: nat)
    ensures MembersOf(membs, []) == [] && Visit(isLocal, [], {user}) == []
  {
  }

  lemma VisitOneMore(isLocal: nat -> bool, users: seq<nat>, n: nat, skip: set<nat>)
    requires n < |users|
    ensures var told := Visit(isLocal, users[..n], skip);
            Visit(isLocal, users[..n + 1], skip) ==
            if isLocal(users[n]) && users[n] !in skip && users[n] !in told then told + [users[n]] else told
  {
    assert users[..n + 1][..n] == users[..n];
  }

  lemma MembersOneMore(membs: seq<Memb>, included: seq<Memb>, i: nat)
    requires i < |included|
    ensures MembersOf(membs, included[..i + 1]) == MembersOf(membs, included[..i]) + UsersOf(membs, included[i].chan)
  {
    assert included[..i + 1][..i] == included[..i];
  }

  lemma KeepNone(p: Memb -> bool)
    ensures Keep([], p) == []
  {
  }

  lemma SameTail(a: seq<Memb>, i: nat, b: seq<Memb>, n: nat)
    requires i < |a| && n <= |b| && a[i..] == b[n..]
    ensures n < |b| && a[i] == b[n] && a[i + 1..] == b[n + 1..]
  {
    assert a[i] == a[i..][0] && b[n..][0] == b[n];
    assert a[i + 1..] == a[i..][1..] && b[n + 1..] == b[n..][1..];
  }

  lemma KeepOneMore(membs: seq<Memb>, n: nat, p: Memb -> bool)
    requires n < |membs|
    ensures Keep(membs[..n + 1], p) == Keep(membs[..n], p) + if p(membs[n]) then [membs[n]] else []
  {
    assert membs[..n + 1][..n] == membs[..n];
  }

  lemma {:induction false} KeepTwice(membs: seq<Memb>, p: Memb -> bool, q: Memb -> bool, both: Memb -> bool)
    requires forall m :: both(m) <==> p(m) && q(m)
    ensures Keep(Keep(membs, p), q) == Keep(membs, both)
    decreases membs
  {
    if membs != [] {
      var front, last := membs[..|membs| - 1], membs[|membs| - 1];
      KeepTwice(front, p, q, both);
      if p(last) {
        var kept := Keep(front, p) + [last];
        assert kept[..|kept| - 1] == Keep(front, p);
      } else {
        assert Keep(membs, p) == Keep(front, p);
      }
    }
  }
}
