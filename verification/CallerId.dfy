/**
 The accept lists of the callerid module.

 Who accepts whom is stored twice: each user's record holds the users it accepts, and each
 accepted user's record points back at the records that list it.  ACCEPT commands, nick changes,
 quits, deletion and deserialisation all update both sides through shared references, and the
 module reports an inconsistency in five places when the sides disagree.  Deserialisation drops
 references back, so the model keeps track of the entries that have lost theirs; it proves which
 of the five reports are impossible and exactly when the others are made.
 */
module CallerId {
  import opened Collections

  /** Position of the first occurrence of `x`, or the length if there is none. */
  function IndexOf<T(==)>(s: seq<T>, x: T): (i: nat)
    ensures i <= |s| && x !in s[..i]
    ensures i < |s| ==> s[i] == x
  {
    if s == [] || s[0] == x then 0
    else
      var i := IndexOf(s[1..], x);
      assert s[..i + 1] == [s[0]] + s[1..][..i];
      i + 1
  }

  /** Overwrites the first occurrence of `x` with the last element and drops the last element. */
  function SwapErase<T(==)>(s: seq<T>, x: T): seq<T>
  {
    var i := IndexOf(s, x);
    if i == |s| then s else s[i := s[|s| - 1]][..|s| - 1]
  }

  /** On a list without duplicates exactly the given element disappears. */
  lemma SwapEraseRemoves<T>(s: seq<T>, x: T)
    requires NoDuplicates(s)
    ensures NoDuplicates(SwapErase(s, x))
    ensures forall y :: y in SwapErase(s, x) <==> y in s && y != x
    ensures |SwapErase(s, x)| == if x in s then |s| - 1 else |s|
  {
    var i, r := IndexOf(s, x), SwapErase(s, x);
    if i < |s| {
      assert forall k :: 0 <= k < |r| ==> r[k] == if k == i then s[|s| - 1] else s[k];
      forall y | y in s && y != x
        ensures y in r
      {
        var k :| 0 <= k < |s| && s[k] == y;
        assert if k == |s| - 1 then r[i] == y else r[k] == y;
      }
    } else {
      assert s[..i] == s;
    }
  }

  class User {
    const id: nat
    const isLocal: bool
    var quitting: bool
    var connected: bool    // NICK and USER were both accepted
    var data: Record?      // the callerid extension, created on demand

    constructor (id: nat, isLocal: bool)
      ensures this.id == id && this.isLocal == isLocal && !connected && !quitting && data == null
    {
      this.id, this.isLocal := id, isLocal;
      connected, quitting, data := false, false, null;
    }
  }

  class Record {
    const owner: User              // whose record this is; only specifications use it
    var lastnotify: int
    var accepting: set<User>       // users the owner accepts messages from
    var wholistsme: seq<Record>    // records that list the owner

    constructor (owner: User)
      ensures this.owner == owner && lastnotify == 0 && accepting == {} && wholistsme == []
    {
      this.owner := owner;
      lastnotify, accepting, wholistsme := 0, {}, [];
    }
  }

  /** The result of a hook that may stop an action. */
  datatype ModResult = PassThru | Deny

  /** The serialised form of a record: the time of the last notice and the users that the tokens name. */
  datatype Saved = Saved(lastnotify: int, accepted: seq<User?>)

  /** A saved record names a user who is not quitting. */
  ghost predicate Names(s: Saved, v: User)
    reads v`quitting
  {
    v in s.accepted && !v.quitting
  }

  /**
   Whether deleting the record at a position reports an inconsistency: the record of somebody the
   owner accepts is gone already, or the pointer back is lost.
   */
  ghost predicate Troubled(order: seq<User>, k: nat, entries: set<(User, User)>, lost: set<(User, User)>)
    requires k < |order|
  {
    exists p :: p in entries && p.0 == order[k] && (p.1 in order[..k] || p in lost)
  }

  ghost predicate AnyTrouble(order: seq<User>, entries: set<(User, User)>, lost: set<(User, User)>)
  {
    exists k :: 0 <= k < |order| && Troubled(order, k, entries, lost)
  }

  /** The entries for somebody who comes later in the order. */
  ghost function Forward(order: seq<User>, entries: set<(User, User)>): set<(User, User)>
  {
    set i, j | 0 <= i < j < |order| && (order[i], order[j]) in entries :: (order[i], order[j])
  }

  /** The entries for somebody who comes earlier. */
  ghost function Backward(order: seq<User>, entries: set<(User, User)>): set<(User, User)>
  {
    set i, j | 0 <= i < j < |order| && (order[j], order[i]) in entries :: (order[j], order[i])
  }

  lemma TroubledIff(order: seq<User>, entries: set<(User, User)>, lost: set<(User, User)>)
    requires lost <= entries && forall p :: p in entries ==> p.0 in order && p.1 in order
    ensures AnyTrouble(order, entries, lost) <==> lost != {} || Backward(order, entries) != {}
  {
    if k :| 0 <= k < |order| && Troubled(order, k, entries, lost) {
      var p :| p in entries && p.0 == order[k] && (p.1 in order[..k] || p in lost);
      if p !in lost {
        var i :| 0 <= i < k && order[i] == p.1;
        assert (order[k], order[i]) in Backward(order, entries);
      }
    }
    if p :| p in lost {
      var k :| 0 <= k < |order| && order[k] == p.0;
      assert Troubled(order, k, entries, lost);
    }
    if p :| p in Backward(order, entries) {
      var i, j :| 0 <= i < j < |order| && p == (order[j], order[i]);
      assert p.1 in order[..j];
      assert Troubled(order, j, entries, lost);
    }
  }

  /** An entry for somebody else is for somebody who comes later or earlier. */
  lemma ForwardOrBackward(order: seq<User>, entries: set<(User, User)>)
    requires NoDuplicates(order) && forall p :: p in entries ==> p.0 in order && p.1 in order
    ensures Forward(order, entries) == {} && Backward(order, entries) == {} <==> forall p :: p in entries ==> p.0 == p.1
  {
    if p :| p in entries && p.0 != p.1 {
      var i :| 0 <= i < |order| && order[i] == p.0;
      var j :| 0 <= j < |order| && order[j] == p.1;
      assert if i < j then (order[i], order[j]) in Forward(order, entries) else (order[i], order[j]) in Backward(order, entries);
    }
  }

  class Module {
    var maxaccepts: nat
    var tracknick: bool
    var notifyCooldown: int
    ghost var users: set<User>             // every user that has not been deleted yet
    ghost var records: set<Record>         // the records of those users
    ghost var lost: set<(User, User)>      // entries of accept lists without a pointer back

    // ----- the invariant

    /** Records belong to users one to one, and point at records only. */
    ghost predicate Shape()
      reads this, users, records
    {
      && (forall u {:trigger u in users} :: u in users ==> u.data == null || (u.data in records && u.data.owner == u))
      && (forall r {:trigger r in records} :: r in records ==> r.owner in users && r.owner.data == r && r.accepting <= users)
      && (forall r {:trigger r.wholistsme} :: r in records ==> NoDuplicates(r.wholistsme) && forall d :: d in r.wholistsme ==> d in records)
    }

    /** v is on u's accept list. */
    ghost predicate Accepts(u: User, v: User)
      reads u, u.data
    {
      u.data != null && v in u.data.accepting
    }

    ghost function ListSize(u: User): nat
      reads u, u.data
    {
      if u.data == null then 0 else |u.data.accepting|
    }

    /** When the user was last told of somebody who is not accepted; zero if never. */
    ghost function LastNotify(u: User): int
      reads u, u.data
    {
      if u.data == null then 0 else u.data.lastnotify
    }

    /** u's record is among v's back-pointers. */
    ghost predicate PointsBack(v: User, u: User)
      reads u, v, v.data
    {
      u.data != null && v.data != null && u.data in v.data.wholistsme
    }

    /** u's entry for v has lost its pointer back. */
    ghost predicate Lost(u: User, v: User)
      reads this`lost
    {
      (u, v) in lost
    }

    /** The two directions agree, except for the lost entries. */
    ghost predicate Linked()
      requires Shape()
      reads this, users, records
    {
      && (forall u, v {:trigger Accepts(u, v)} {:trigger PointsBack(v, u)} :: u in users && v in users ==>
            (Accepts(u, v) <==> PointsBack(v, u) || Lost(u, v)))
      && (forall p :: p in lost ==> p.0 in users && p.1 in users && p.0 != p.1)
      && (forall u, v {:trigger Lost(u, v)} :: u in users && v in users && Lost(u, v) ==> v.data != null && !PointsBack(v, u))
    }

    /** Only fully connected users are accepted by anyone, and only through a lost entry if they are on their way out. */
    ghost predicate AcceptedAreLive()
      reads this, users, records
    {
      forall u, v {:trigger Accepts(u, v)} :: u in users && v in users && u.data in records && Accepts(u, v) ==>
        v.connected && (v.quitting ==> Lost(u, v))
    }

    ghost predicate Valid()
      reads this, users, records
    {
      Shape() && Linked() && AcceptedAreLive()
    }

    constructor (maxaccepts: nat, tracknick: bool, notifyCooldown: int)
      ensures Valid() && users == {} && records == {} && lost == {}
      ensures this.maxaccepts == maxaccepts && this.tracknick == tracknick && this.notifyCooldown == notifyCooldown
    {
      this.maxaccepts, this.tracknick, this.notifyCooldown := maxaccepts, tracknick, notifyCooldown;
      users, records, lost := {}, {}, {};
    }

    /** Takes over a new configuration; the lists stay as they are, whatever the new limit. */
    method ReadConfig(maxaccepts: nat, tracknick: bool, notifyCooldown: int)
      requires Valid()
      modifies this`maxaccepts, this`tracknick, this`notifyCooldown
      ensures Valid() && this.maxaccepts == maxaccepts && this.tracknick == tracknick && this.notifyCooldown == notifyCooldown
    {
      this.maxaccepts, this.tracknick, this.notifyCooldown := maxaccepts, tracknick, notifyCooldown;
      assert forall u, v :: u in users && v in users ==> (Lost(u, v) <==> old(Lost(u, v)));
      assert forall u, v :: u in users && v in users ==> (PointsBack(v, u) <==> old(PointsBack(v, u)));
      assert forall u, v :: u in users && v in users ==> (Accepts(u, v) <==> old(Accepts(u, v)));
    }

    // ----- what the invariant means

    /** An entry is either lost or points back exactly once, also when u and v are the same. */
    lemma AcceptedIffListedOnce(u: User, v: User)
      requires Valid() && u in users && v in users
      ensures Accepts(u, v) && !Lost(u, v) <==> u.data != null && v.data != null && multiset(v.data.wholistsme)[u.data] == 1
      ensures u.data != null && v.data != null ==> multiset(v.data.wholistsme)[u.data] <= 1
    {
      assert Accepts(u, v) <==> PointsBack(v, u) || Lost(u, v);
      if u.data != null && v.data != null {
        OccurrencesWithoutDuplicates(v.data.wholistsme, u.data);
      }
    }

    static lemma {:induction false} OccurrencesWithoutDuplicates<T>(s: seq<T>, x: T)
      requires NoDuplicates(s)
      ensures multiset(s)[x] == if x in s then 1 else 0
      decreases s
    {
      if s != [] {
        OccurrencesWithoutDuplicates(s[1..], x);
        assert s == [s[0]] + s[1..];
        assert x in s[1..] ==> x != s[0];
      }
    }

    /** The lost entries are exactly those without a pointer back. */
    lemma LostIffUnlinked(u: User, v: User)
      requires Valid()
      ensures Lost(u, v) <==> u in users && v in users && Accepts(u, v) && !PointsBack(v, u)
    {
    }

    lemma LostAreUsers()
      requires Valid()
      ensures forall p :: p in lost ==> p.0 in users && p.1 in users
    {
    }

    lemma LostAfterAt(user: User)
      requires Shape() && user in users
      ensures forall u, v :: u in users && v in users ==> ((u, v) in LostAfter(user) <==> u != user && (Lost(u, v) || (v == user && Accepts(u, v))))
    {
    }

    lemma PointerHasOwner(v: User, d: Record)
      requires Shape() && v in users && v.data != null && d in v.data.wholistsme
      ensures d in records && d.owner in users && PointsBack(v, d.owner)
    {
      assert v.data in records;
    }

    /** From quit to deletion no record points back at the user, and nobody accepts them but through a lost entry. */
    lemma QuittingUserIsUnlisted(u: User)
      requires Valid() && u in users && u.quitting
      ensures forall w :: w in users ==> (Accepts(w, u) <==> Lost(w, u))
      ensures u.data != null ==> u.data.wholistsme == []
    {
      assert forall w :: w in users ==> (Accepts(w, u) ==> Lost(w, u)) && !PointsBack(u, w);
      if u.data != null && |u.data.wholistsme| > 0 {
        PointerHasOwner(u, u.data.wholistsme[0]);
      }
    }

    /** Nothing refers to a user or a record that has been deleted. */
    lemma DeletedAreUnreferenced(gone: User, record: Record)
      requires Valid() && gone !in users && record !in records
      ensures forall w :: w in users ==> !Accepts(w, gone) && w.data != record
      ensures forall w :: w in users && w.data != null ==> record !in w.data.wholistsme
    {
    }

    /** Liveness is kept when only live users, all of them in `added`, were added to accept lists. */
    twostate lemma StillLive(added: seq<User?>)
      requires old(Shape()) && old(AcceptedAreLive()) && users == old(users)
      requires forall v :: v in users ==> v.quitting == old(v.quitting) && v.connected == old(v.connected)
      requires forall v :: v in added && v in users ==> v.connected
      requires forall u, v :: u in users && v in users && Accepts(u, v) ==>
                 (old(Accepts(u, v)) && (old(Lost(u, v)) ==> Lost(u, v))) || (v in added && !v.quitting)
      ensures AcceptedAreLive()
    {
    }

    /** Liveness is kept when a user went off all lists but for lost entries, whatever became of that user. */
    twostate lemma StillLiveWithout(gone: User)
      requires old(Shape()) && old(AcceptedAreLive()) && users == old(users) && lost == old(lost)
      requires forall v :: v in users ==> v.connected == old(v.connected) && (v != gone ==> v.quitting == old(v.quitting))
      requires forall u, v :: u in users && v in users && Accepts(u, v) ==> old(Accepts(u, v)) && (v == gone ==> Lost(u, v))
      ensures AcceptedAreLive()
    {
    }

    // ----- the extension item

    /** The user's record, created if there is none. */
    method GetOrCreate(user: User) returns (dat: Record)
      requires Shape() && Linked() && user in users
      modifies user`data, this`records
      ensures Shape() && Linked()
      ensures user.data == dat && dat in records && dat.owner == user
      ensures if old(user.data) == null then fresh(dat) && records == old(records) + {dat} && dat.accepting == {} && dat.wholistsme == [] && dat.lastnotify == 0
              else dat == old(user.data) && records == old(records)
      ensures forall u, v :: u in users && v in users ==> (Accepts(u, v) <==> old(Accepts(u, v)))
    {
      if user.data == null {
        user.data := new Record(user);
        records := records + {user.data};
        StillLinked();
      }
      dat := user.data;
    }

    /** A new record without entries or pointers changes nothing. */
    twostate lemma StillLinked()
      requires old(Shape()) && old(Linked()) && users == old(users) && lost == old(lost) && records >= old(records)
      requires Shape() && forall r :: r in records && r !in old(records) ==> fresh(r) && r.accepting == {} && r.wholistsme == []
      requires forall r :: r in old(records) ==> r.accepting == old(r.accepting) && r.wholistsme == old(r.wholistsme)
      requires forall u :: u in users && old(u.data) != null ==> u.data == old(u.data)
      requires forall u :: u in users && old(u.data) == null && u.data != null ==> u.data !in old(records)
      ensures Linked()
      ensures forall u, v :: u in users && v in users ==> (Accepts(u, v) <==> old(Accepts(u, v)))
    {
      assert forall u, v :: u in users && v in users ==> (Accepts(u, v) <==> old(Accepts(u, v)));
      assert forall u, v :: u in users && v in users ==> (PointsBack(v, u) <==> old(PointsBack(v, u)));
      assert forall u, v :: u in users && v in users ==> (Lost(u, v) <==> old(Lost(u, v)));
    }

    /** Adds `v` to an accept list and the pointer back to `v`'s record. */
    method Link(dat: Record, v: User)
      requires Shape() && Linked() && dat in records && v in users && v.data != null && v !in dat.accepting
      modifies dat`accepting, v.data`wholistsme
      ensures Shape() && Linked()
      ensures forall x, y :: x in users && y in users ==> (Accepts(x, y) <==> old(Accepts(x, y)) || (x == dat.owner && y == v))
    {
      hide Shape, Linked, Accepts, PointsBack, NoDuplicates;
      UnlinkedPair(dat, v);
      dat.accepting := dat.accepting + {v};
      v.data.wholistsme := v.data.wholistsme + [dat];
      LinkedKeeps((dat, v));
    }

    lemma UnlinkedPair(dat: Record, v: User)
      requires Shape() && Linked() && dat in records && v in users && v.data != null && v !in dat.accepting
      ensures v.data in records && dat.owner in users && dat !in v.data.wholistsme && !Lost(dat.owner, v)
    {
      assert !Accepts(dat.owner, v) && !PointsBack(v, dat.owner);
    }

    /** Adding an entry and its pointer back leaves the two directions in agreement. */
    twostate lemma LinkedKeeps(entry: (Record, User))
      requires old(Shape()) && old(Linked()) && users == old(users) && records == old(records) && lost == old(lost)
      requires entry.0 in records && entry.1 in users && entry.1.data in records
      requires forall u :: u in users ==> u.data == old(u.data)
      requires entry.1 !in old(entry.0.accepting) && entry.0 !in old(entry.1.data.wholistsme) && !Lost(entry.0.owner, entry.1)
      requires forall r :: r in records ==> r.accepting == if r == entry.0 then old(r.accepting) + {entry.1} else old(r.accepting)
      requires forall r :: r in records ==> r.wholistsme == if r == entry.1.data then old(r.wholistsme) + [entry.0] else old(r.wholistsme)
      ensures Shape() && Linked()
      ensures forall x, y :: x in users && y in users ==> (Accepts(x, y) <==> old(Accepts(x, y)) || (x == entry.0.owner && y == entry.1))
    {
      assert Shape();
      assert forall u, v :: u in users && v in users ==> (Lost(u, v) <==> old(Lost(u, v)));
      assert forall u, v :: u in users && v in users ==> (PointsBack(v, u) <==> old(PointsBack(v, u)) || (u == entry.0.owner && v == entry.1));
      assert forall u, v :: u in users && v in users ==> (Accepts(u, v) <==> old(Accepts(u, v)) || (u == entry.0.owner && v == entry.1));
    }

    /**
     Takes a record that is about to go out of the back-pointers of everyone on its accept list.
     The results say whether inconsistency (1), no record, or (2), no pointer, was reported.
     */
    method OnDelete(dat: Record) returns (noRecord: bool, noPointer: bool)
      requires Shape() && dat in records
      modifies records`wholistsme
      ensures Shape()
      ensures forall r, d :: r in records ==> (d in r.wholistsme <==> d in old(r.wholistsme) && !(d == dat && r.owner in dat.accepting))
      ensures noRecord <==> exists v :: v in dat.accepting && v.data == null
      ensures noPointer <==> exists v :: v in dat.accepting && v.data != null && dat !in old(v.data.wholistsme)
    {
      hide SwapErase;
      noRecord, noPointer := false, false;
      var todo := dat.accepting;
      while todo != {}
        invariant todo <= dat.accepting && Shape()
        invariant forall r :: r in records && r.owner in todo ==> r.wholistsme == old(r.wholistsme)
        invariant forall r, d :: r in records ==>
                    (d in r.wholistsme <==> d in old(r.wholistsme) && !(d == dat && r.owner in dat.accepting - todo))
        invariant noRecord <==> exists v :: v in dat.accepting - todo && v.data == null
        invariant noPointer <==> exists v :: v in dat.accepting - todo && v.data != null && dat !in old(v.data.wholistsme)
      {
        var user :| user in todo;
        todo := todo - {user};
        assert dat.accepting - todo == dat.accepting - (todo + {user}) + {user};
        var target := user.data;
        if target == null {
          noRecord := true; // inconsistency (1)
        } else {
          assert target in records && target.owner == user;
          SwapEraseRemoves(target.wholistsme, dat);
          if dat !in target.wholistsme {
            noPointer := true; // inconsistency (2)
          }
          target.wholistsme := SwapErase(target.wholistsme, dat);
        }
      }
    }

    /** Removes a user from every accept list that is pointed back at; inconsistency (5) cannot happen. */
    method RemoveFromAllAccepts(who: User)
      requires Shape() && Linked() && who in users
      modifies records`accepting, records`wholistsme
      ensures Shape() && Linked()
      ensures forall u, v :: u in users && v in users ==> (Accepts(u, v) <==> old(Accepts(u, v)) && (v == who ==> Lost(u, v)))
    {
      var userdata := who.data;
      if userdata == null {
        assert forall u :: u in users ==> !PointsBack(who, u) && !Lost(u, who) && !Accepts(u, who);
        return;
      }
      ListersOf(who);
      hide Shape, Linked, Accepts;
      for i := 0 to |userdata.wholistsme|
        invariant forall r {:trigger r.wholistsme} :: r in records ==> r.wholistsme == old(r.wholistsme)
        invariant forall r {:trigger r.accepting} :: r in records ==>
                    r.accepting == if r in userdata.wholistsme[..i] then old(r.accepting) - {who} else old(r.accepting)
      {
        var dat := userdata.wholistsme[i];
        assert dat in userdata.wholistsme && dat !in userdata.wholistsme[..i];
        if who !in dat.accepting {
          assert false; // inconsistency (5)
        }
        dat.accepting := dat.accepting - {who};
      }
      assert userdata.wholistsme[..|userdata.wholistsme|] == userdata.wholistsme;
      userdata.wholistsme := [];
      UnlistedKeeps(who);
    }

    /** The back-pointers of a user are exactly the records that list them, but for lost entries. */
    lemma ListersOf(who: User)
      requires Shape() && Linked() && who in users && who.data != null
      ensures who.data in records && NoDuplicates(who.data.wholistsme)
      ensures forall r :: r in records ==> (r in who.data.wholistsme <==> who in r.accepting && !Lost(r.owner, who))
      ensures forall r :: r in who.data.wholistsme ==> r in records
    {
      assert forall r :: r in records ==> (Accepts(r.owner, who) <==> PointsBack(who, r.owner) || Lost(r.owner, who));
    }

    /** Taking a user off all lists that are pointed back at and emptying their back-pointers keeps the two directions linked. */
    twostate lemma UnlistedKeeps(who: User)
      requires old(Shape()) && old(Linked()) && who in users && who.data in records
      requires users == old(users) && records == old(records) && lost == old(lost)
      requires forall u :: u in users ==> u.data == old(u.data)
      requires forall r :: r in records ==> r.accepting == if Lost(r.owner, who) then old(r.accepting) else old(r.accepting) - {who}
      requires forall r :: r in records ==> r.wholistsme == if r == who.data then [] else old(r.wholistsme)
      ensures Shape() && Linked()
      ensures forall u, v :: u in users && v in users ==> (Accepts(u, v) <==> old(Accepts(u, v)) && (v == who ==> Lost(u, v)))
    {
      assert forall u, v :: u in users && v in users ==> (old(Accepts(u, v)) <==> old(PointsBack(v, u)) || old(Lost(u, v)));
    }

    /** Whether somebody else accepts the user. */
    ghost predicate ListedByOther(user: User)
      reads this, users, records
    {
      exists u :: u in users && u.data in records && u != user && Accepts(u, user)
    }

    /**
     Replaces a user's record by an empty one.  Entries of the old one go, together with their
     pointers back; those of the others for the user lose theirs.
     */
    method Replace(user: User) returns (dat: Record, noPointer: bool)
      requires Shape() && Linked() && user in users
      modifies this`records, this`lost, user`data, records`wholistsme
      ensures Shape() && Linked() && fresh(dat) && user.data == dat && records == old(records) - {old(user.data)} + {dat}
      ensures dat.owner == user && dat.accepting == {} && dat.wholistsme == []
      ensures noPointer <==> exists v :: v in users && old(Lost(user, v))
      ensures forall u, v :: u in users && v in users ==> (Accepts(u, v) <==> u != user && old(Accepts(u, v)))
      ensures lost == old(LostAfter(user))
      ensures forall u {:trigger LastNotify(u)} :: u in users && u != user ==> LastNotify(u) == old(LastNotify(u))
    {
      hide Linked, LinkedBut, PointsBack, Accepts, LostAfter;
      noPointer := Unpoint(user);
      SameLostAfter(user);
      dat := new Record(user);
      ReplaceRecord(user, dat);
    }

    twostate lemma SameLostAfter(user: User)
      requires old(Shape()) && Shape() && users == old(users) && lost == old(lost) && user in users
      requires forall u, v :: u in users && v in users ==> (Accepts(u, v) <==> old(Accepts(u, v)))
      ensures LostAfter(user) == old(LostAfter(user))
    {
    }

    lemma LinkedAt()
      requires Shape() && Linked()
      ensures forall u, v :: u in users && v in users ==> (Accepts(u, v) <==> PointsBack(v, u) || Lost(u, v))
      ensures forall p :: p in lost ==> p.0 in users && p.1 in users && p.0 != p.1
      ensures forall u, v :: u in users && v in users && Lost(u, v) ==> v.data != null && !PointsBack(v, u)
    {
    }

    /** The two directions agree but for a user whose record nobody points at any more. */
    ghost predicate LinkedBut(user: User)
      requires Shape()
      reads this, users, records
    {
      && (forall u, v {:trigger Accepts(u, v)} {:trigger PointsBack(v, u)} :: u in users && v in users && u != user ==>
            (Accepts(u, v) <==> PointsBack(v, u) || Lost(u, v)))
      && (forall v {:trigger v in users} :: v in users && user in users ==> !PointsBack(v, user))
      && (forall p :: p in lost ==> p.0 in users && p.1 in users && p.0 != p.1)
      && (forall u, v {:trigger Lost(u, v)} :: u in users && v in users && u != user && Lost(u, v) ==> v.data != null && !PointsBack(v, u))
    }

    /** Runs the deletion hook for a user's record, if there is one; inconsistency (1) cannot happen. */
    method Unpoint(user: User) returns (noPointer: bool)
      requires Shape() && Linked() && user in users
      modifies records`wholistsme
      ensures Shape() && LinkedBut(user)
      ensures noPointer <==> exists v :: v in users && Lost(user, v)
      ensures forall u, v :: u in users && v in users ==> (Accepts(u, v) <==> old(Accepts(u, v)))
      ensures forall u :: u in users ==> LastNotify(u) == old(LastNotify(u))
    {
      LinkedAt();
      if user.data == null {
        assert forall v :: v in users ==> !Lost(user, v) && !Accepts(user, v);
        return false;
      }
      OwnEntries(user);
      var noRecord: bool;
      noRecord, noPointer := OnDelete(user.data);
      hide Linked;
      if noRecord {
        assert false; // inconsistency (1)
      }
      assert forall u, v :: u in users && v in users ==> (PointsBack(v, u) <==> old(PointsBack(v, u)) && u != user);
      assert forall u, v :: u in users && v in users ==> (Accepts(u, v) <==> old(Accepts(u, v)));
    }

    /** The lost entries once the user's record has been replaced. */
    ghost function LostAfter(user: User): set<(User, User)>
      reads this, users, records
    {
      (set p | p in lost && p.0 != user) + (set u | u in users && u.data in records && u != user && Accepts(u, user) :: (u, user))
    }

    method ReplaceRecord(user: User, dat: Record)
      requires Shape() && LinkedBut(user) && user in users
      requires dat !in records && dat.owner == user && dat.accepting == {} && dat.wholistsme == []
      modifies this`records, this`lost, user`data
      ensures Shape() && Linked() && user.data == dat && records == old(records) - {old(user.data)} + {dat}
      ensures lost == old(LostAfter(user))
      ensures forall u, v :: u in users && v in users ==> (Accepts(u, v) <==> u != user && old(Accepts(u, v)))
      ensures forall u {:trigger LastNotify(u)} :: u in users && u != user ==> LastNotify(u) == old(LastNotify(u))
    {
      LostAfterAt(user);
      lost := LostAfter(user);
      records := records - {user.data} + {dat};
      user.data := dat;
      ReplacedKeeps(user);
    }

    twostate lemma ReplacedKeeps(user: User)
      requires old(Shape()) && old(LinkedBut(user)) && users == old(users) && user in users && user.data != null && user.data !in old(records)
      requires records == old(records) - {old(user.data)} + {user.data}
      requires user.data.owner == user && user.data.accepting == {} && user.data.wholistsme == []
      requires forall u :: u in users && u != user ==> u.data == old(u.data)
      requires forall r :: r in old(records) ==> r.accepting == old(r.accepting) && r.wholistsme == old(r.wholistsme)
      requires forall p :: p in lost ==> p.0 in users && p.1 in users && p.0 != p.1
      requires forall u, v :: u in users && v in users ==>
                 (Lost(u, v) <==> u != user && (old(Lost(u, v)) || (v == user && old(Accepts(u, v)))))
      ensures Shape() && Linked()
      ensures forall u, v :: u in users && v in users ==> (Accepts(u, v) <==> u != user && old(Accepts(u, v)))
    {
      assert Shape();
      assert forall u, v :: u in users && v in users ==> (Accepts(u, v) <==> u != user && old(Accepts(u, v)));
      assert forall u, v :: u in users && v in users ==> (PointsBack(v, u) <==> u != user && v != user && old(PointsBack(v, u)));
    }

    /** All entries of a record are for users with a record, and exactly the lost ones have no pointer back. */
    lemma OwnEntries(user: User)
      requires Shape() && Linked() && user in users && user.data != null
      ensures forall v :: v in user.data.accepting ==> v in users && v.data != null && (user.data !in v.data.wholistsme <==> Lost(user, v))
      ensures forall v :: v in users && Lost(user, v) ==> v in user.data.accepting
      ensures forall v :: v in users && v.data != null && user.data in v.data.wholistsme ==> v in user.data.accepting
    {
      assert user.data in records;
      assert forall v :: v in users ==> (Accepts(user, v) <==> PointsBack(v, user) || Lost(user, v));
    }

    /**
     Replaces a user's record by one read from its serialised form; `found` are the users that the
     tokens name.  The record's own back-pointers are dropped, so every entry of somebody else for
     the user is lost.  Inconsistency (2) is reported exactly for lost entries of the old record.
     */
    method FromInternal(user: User, lastnotify: int, found: seq<User?>) returns (noPointer: bool)
      requires Valid() && user in users
      requires forall i :: 0 <= i < |found| && found[i] != null ==> found[i] in users && found[i].connected
      modifies this`records, this`lost, users`data, records`wholistsme
      ensures Valid() && fresh(records - old(records)) && lost == old(LostAfter(user))
      ensures lost == {} <==> !old(ListedByOther(user)) && forall p :: p in old(lost) ==> p.0 == user
      ensures forall u, v :: u in users && v in users ==> (Lost(u, v) <==> u != user && (old(Lost(u, v)) || (v == user && old(Accepts(u, v)))))
      ensures noPointer <==> exists v :: v in users && old(Lost(user, v))
      ensures LastNotify(user) == lastnotify
      ensures forall u, v :: u in users && v in users ==>
                (Accepts(u, v) <==> if u == user then v in found && !v.quitting else old(Accepts(u, v)))
      ensures forall u {:trigger LastNotify(u)} :: u in users && u != user ==> LastNotify(u) == old(LastNotify(u))
    {
      hide Shape, Linked, Accepts, PointsBack, LostAfter, ListedByOther, LastNotify;
      LostAfterEmptyIff(user);
      LostAfterAt(user);
      var dat: Record;
      dat, noPointer := Replace(user);
      Load(user, dat, lastnotify, found);
      StillLive(found);
    }

    lemma LostAfterEmptyIff(user: User)
      requires Shape()
      ensures LostAfter(user) == {} <==> !ListedByOther(user) && forall p :: p in lost ==> p.0 == user
      ensures forall p :: p in lost && p.0 != user ==> p in LostAfter(user)
    {
      if p :| p in lost && p.0 != user {
        assert p in LostAfter(user);
      }
      if u :| u in users && u.data in records && u != user && Accepts(u, user) {
        assert (u, user) in LostAfter(user);
      }
    }

    /** Fills a record that has just been created. */
    method Load(user: User, dat: Record, lastnotify: int, found: seq<User?>)
      requires Shape() && Linked() && user in users && user.data == dat && dat.accepting == {}
      requires forall i :: 0 <= i < |found| && found[i] != null ==> found[i] in users
      modifies this`records, users`data, records`wholistsme, dat
      ensures Shape() && Linked() && fresh(records - old(records)) && LastNotify(user) == lastnotify
      ensures forall u, v :: u in users && v in users ==>
                (Accepts(u, v) <==> if u == user then v in found && !v.quitting else old(Accepts(u, v)))
      ensures forall u {:trigger LastNotify(u)} :: u in users && u != user ==> LastNotify(u) == old(LastNotify(u))
    {
      dat.lastnotify := lastnotify;
      StillLinked();
      hide Linked, PointsBack, Lost;
      for i := 0 to |found|
        invariant Shape() && Linked() && user.data == dat && dat in records && fresh(records - old(records))
        invariant dat.lastnotify == lastnotify && forall u :: u in users && u != user ==> LastNotify(u) == old(LastNotify(u))
        invariant forall u, v {:trigger Accepts(u, v)} :: u in users && v in users ==>
                    (Accepts(u, v) <==> if u == user then v in found[..i] && !v.quitting else old(Accepts(u, v)))
      {
        var u := found[i];
        assert forall v :: v in found[..i + 1] <==> v in found[..i] || v == u;
        if u != null && !u.quitting {
          Include(dat, u);
        }
      }
      assert found[..|found|] == found;
    }

    /** Adds a user to an accept list unless they are on it. */
    method Include(dat: Record, u: User)
      requires Shape() && Linked() && dat in records && u in users
      modifies this`records, u`data, records`wholistsme, dat`accepting
      ensures Shape() && Linked() && fresh(records - old(records)) && records >= old(records)
      ensures forall x, y :: x in users && y in users ==> (Accepts(x, y) <==> old(Accepts(x, y)) || (x == dat.owner && y == u))
      ensures forall x :: x in users ==> LastNotify(x) == old(LastNotify(x))
      ensures forall x :: x in users && old(x.data) != null ==> x.data == old(x.data)
    {
      assert dat.owner in users && dat.owner.data == dat;
      if u !in dat.accepting {
        var other := GetOrCreate(u);
        assert forall x :: x in users ==> LastNotify(x) == old(LastNotify(x));
        hide Linked, PointsBack;
        Link(dat, u);
      } else {
        assert Accepts(dat.owner, u);
      }
    }

    // ----- the ACCEPT command

    method AddAccept(user: User, whotoadd: User) returns (ok: bool)
      requires Valid() && user in users && whotoadd in users && !whotoadd.quitting && whotoadd.connected
      modifies this`records, users`data, records`accepting, records`wholistsme
      ensures Valid() && fresh(records - old(records))
      ensures ok <==> !old(Accepts(user, whotoadd)) && maxaccepts > old(ListSize(user))
      ensures forall u, v :: u in users && v in users ==>
                (Accepts(u, v) <==> old(Accepts(u, v)) || (ok && u == user && v == whotoadd))
    {
      var dat := GetOrCreate(user);
      hide Linked, PointsBack;
      StillLive([]);
      if |dat.accepting| >= maxaccepts {
        return false;
      }
      if whotoadd in dat.accepting {
        return false;
      }
      var target := GetOrCreate(whotoadd);
      Link(dat, whotoadd);
      StillLive([whotoadd]);
      return true;
    }

    /**
     Removes `v` from an accept list and the pointer back from `v`'s record.  Inconsistency (3)
     cannot happen, and (4) is reported exactly for a lost entry.
     */
    method Unlink(dat: Record, v: User) returns (noPointer: bool)
      requires Shape() && Linked() && dat in records && v in dat.accepting
      modifies records`accepting, records`wholistsme, this`lost
      ensures Shape() && Linked() && lost == old(lost) - {(dat.owner, v)}
      ensures noPointer <==> old(Lost(dat.owner, v))
      ensures forall x, y :: x in users && y in users ==> (Accepts(x, y) <==> old(Accepts(x, y)) && !(x == dat.owner && y == v))
    {
      assert Accepts(dat.owner, v);
      OwnEntries(dat.owner);
      assert v.data in records && NoDuplicates(v.data.wholistsme);
      hide Shape, Linked, Accepts, PointsBack, SwapErase;
      dat.accepting := dat.accepting - {v};
      var dat2 := v.data;
      if dat2 == null {
        assert false; // inconsistency (3)
        return;
      }
      SwapEraseRemoves(dat2.wholistsme, dat);
      noPointer := dat !in dat2.wholistsme; // inconsistency (4)
      dat2.wholistsme := SwapErase(dat2.wholistsme, dat);
      lost := lost - {(dat.owner, v)};
      UnlinkedKeeps((dat, v));
    }

    /** Removing an entry and its pointer back leaves the two directions in agreement. */
    twostate lemma UnlinkedKeeps(entry: (Record, User))
      requires old(Shape()) && old(Linked()) && users == old(users) && records == old(records)
      requires entry.0 in records && entry.1 in users && entry.1.data in records && lost == old(lost) - {(entry.0.owner, entry.1)}
      requires forall u :: u in users ==> u.data == old(u.data)
      requires forall r :: r in records ==> r.accepting == if r == entry.0 then old(r.accepting) - {entry.1} else old(r.accepting)
      requires forall r :: r in records && r != entry.1.data ==> r.wholistsme == old(r.wholistsme)
      requires NoDuplicates(entry.1.data.wholistsme)
      requires forall d :: d in entry.1.data.wholistsme <==> d in old(entry.1.data.wholistsme) && d != entry.0
      ensures Shape() && Linked()
      ensures forall x, y :: x in users && y in users ==> (Accepts(x, y) <==> old(Accepts(x, y)) && !(x == entry.0.owner && y == entry.1))
    {
      assert Shape();
      assert forall u, v :: u in users && v in users ==> (old(Accepts(u, v)) <==> old(PointsBack(v, u)) || old(Lost(u, v)));
      assert forall u, v :: u in users && v in users ==> (PointsBack(v, u) <==> old(PointsBack(v, u)) && !(u == entry.0.owner && v == entry.1));
      assert forall u, v :: u in users && v in users ==> (Lost(u, v) <==> old(Lost(u, v)) && !(u == entry.0.owner && v == entry.1));
    }

    method RemoveAccept(user: User, whotoremove: User) returns (ok: bool, noPointer: bool)
      requires Valid() && user in users && whotoremove in users
      modifies records`accepting, records`wholistsme, this`lost
      ensures Valid() && lost == old(lost) - {(user, whotoremove)}
      ensures ok <==> old(Accepts(user, whotoremove))
      ensures noPointer <==> old(Lost(user, whotoremove))
      ensures forall u, v :: u in users && v in users ==>
                (Accepts(u, v) <==> old(Accepts(u, v)) && !(u == user && v == whotoremove))
    {
      assert Lost(user, whotoremove) ==> Accepts(user, whotoremove);
      var dat := user.data;
      if dat == null {
        return false, false;
      }
      if whotoremove !in dat.accepting {
        return false, false;
      }
      noPointer := Unlink(dat, whotoremove);
      hide Shape, Linked, Accepts;
      StillLive([]);
      ok := true;
    }

    /** ACCEPT by `user`; `target` is null when no fully connected user was found. */
    method Handle(user: User, target: User?, adding: bool) returns (ok: bool, noPointer: bool)
      requires Valid() && user in users && (target != null ==> target in users && target.connected)
      modifies this`records, this`lost, users`data, records`accepting, records`wholistsme
      ensures Valid() && fresh(records - old(records))
      ensures forall u, v :: u in users && v in users ==> (Lost(u, v) <==> old(Lost(u, v)) && !(noPointer && u == user && v == target))
      ensures noPointer <==> target != null && !target.quitting && (user.isLocal || target.isLocal) && !adding && old(Lost(user, target))
      ensures ok <==>
                (target != null && !target.quitting && (user.isLocal || target.isLocal ==>
                   if adding then !old(Accepts(user, target)) && maxaccepts > old(ListSize(user)) else old(Accepts(user, target))))
      ensures forall u, v :: u in users && v in users ==>
                (Accepts(u, v) <==> if ok && u == user && v == target && (user.isLocal || target.isLocal) then adding else old(Accepts(u, v)))
    {
      if target == null || target.quitting {
        return false, false;
      }
      if !user.isLocal && !target.isLocal {
        return true, false;
      }
      noPointer := false;
      if adding {
        ok := AddAccept(user, target);
      } else {
        ok, noPointer := RemoveAccept(user, target);
      }
    }

    /** Decides whether a private message gets through to a user with the callerid mode, and whether that user is told of it. */
    method HandleMessage(user: User, dest: User, hasMode: bool, mayIgnore: bool, now: int) returns (res: ModResult, notified: bool)
      requires Valid() && user in users && dest in users
      modifies this`records, users`data, records`lastnotify
      ensures Valid() && fresh(records - old(records))
      ensures res == Deny <==> user.isLocal && hasMode && user != dest && !mayIgnore && !old(Accepts(dest, user))
      ensures notified <==> res == Deny && now > old(LastNotify(dest)) + notifyCooldown
      ensures LastNotify(dest) == if notified then now else old(LastNotify(dest))
      ensures forall u, v :: u in users && v in users ==> (Accepts(u, v) <==> old(Accepts(u, v)))
    {
      if !user.isLocal {
        return PassThru, false;
      }
      if !hasMode || user == dest {
        return PassThru, false;
      }
      if mayIgnore {
        return PassThru, false;
      }
      var dat := GetOrCreate(dest);
      hide Linked, PointsBack;
      StillLive([]);
      if user !in dat.accepting {
        notified := now > dat.lastnotify + notifyCooldown;
        if notified {
          SetLastNotify(dat, now);
        }
        return Deny, notified;
      }
      return PassThru, false;
    }

    method SetLastNotify(dat: Record, now: int)
      requires Valid() && dat in records
      modifies dat`lastnotify
      ensures Valid() && dat.lastnotify == now
      ensures forall u, v :: u in users && v in users ==> (Accepts(u, v) <==> old(Accepts(u, v)))
    {
      dat.lastnotify := now;
      assert forall u, v :: u in users && v in users ==> (Accepts(u, v) <==> old(Accepts(u, v)));
      assert forall u, v :: u in users && v in users ==> (PointsBack(u, v) <==> old(PointsBack(u, v)));
      assert forall u, v :: u in users && v in users ==> (Lost(u, v) <==> old(Lost(u, v)));
    }

    // ----- the life of a user

    method AddUser(id: nat, isLocal: bool) returns (user: User)
      requires Valid()
      modifies this`users
      ensures Valid() && fresh(user) && users == old(users) + {user}
      ensures user.id == id && user.isLocal == isLocal && !user.connected && !user.quitting
      ensures forall u, v :: u in old(users) && v in old(users) ==> (Accepts(u, v) <==> old(Accepts(u, v)))
      ensures forall u :: u in users ==> !Accepts(u, user) && !Accepts(user, u) && !Lost(u, user) && !Lost(user, u)
    {
      user := new User(id, isLocal);
      users := users + {user};
      AddedKeeps(user);
    }

    /** A new user without a record changes nothing. */
    twostate lemma AddedKeeps(new user: User)
      requires old(Shape()) && old(Linked()) && old(AcceptedAreLive()) && fresh(user) && users == old(users) + {user}
      requires records == old(records) && lost == old(lost) && user.data == null
      requires forall u :: u in old(users) ==> u.data == old(u.data) && u.quitting == old(u.quitting) && u.connected == old(u.connected)
      requires forall r :: r in records ==> r.accepting == old(r.accepting) && r.wholistsme == old(r.wholistsme)
      ensures Valid()
      ensures forall u, v :: u in old(users) && v in old(users) ==> (Accepts(u, v) <==> old(Accepts(u, v)))
      ensures forall u :: u in users ==> !Accepts(u, user) && !Accepts(user, u) && !Lost(u, user) && !Lost(user, u)
    {
      assert Shape();
      assert forall u :: u in users ==> !Accepts(u, user) && !Accepts(user, u) && !PointsBack(u, user) && !PointsBack(user, u);
      assert forall p :: p in lost ==> p.0 != user && p.1 != user;
      assert forall u, v :: u in old(users) && v in old(users) ==> (PointsBack(u, v) <==> old(PointsBack(u, v)));
      assert forall u, v :: u in old(users) && v in old(users) ==> (Lost(u, v) <==> old(Lost(u, v)));
    }

    method Register(user: User)
      requires Valid() && user in users
      modifies user`connected
      ensures Valid() && user.connected
      ensures forall u, v :: u in users && v in users ==> (Accepts(u, v) <==> old(Accepts(u, v)))
    {
      user.connected := true;
      assert forall u, v :: u in users && v in users ==> (Accepts(u, v) <==> old(Accepts(u, v)));
      assert forall u, v :: u in users && v in users ==> (PointsBack(u, v) <==> old(PointsBack(u, v)));
      assert forall u, v :: u in users && v in users ==> (Lost(u, v) <==> old(Lost(u, v)));
    }

    /** After a nick change the old entries go, unless the configuration tracks nicks or they are lost. */
    method OnUserPostNick(user: User)
      requires Valid() && user in users
      modifies records`accepting, records`wholistsme
      ensures Valid()
      ensures forall u, v :: u in users && v in users ==>
                (Accepts(u, v) <==> old(Accepts(u, v)) && (v == user ==> tracknick || Lost(u, v)))
    {
      if !tracknick {
        RemoveFromAllAccepts(user);
        hide Shape, Linked, Accepts;
        StillLive([]);
      }
    }

    /** Marks a user as quitting; the quit hook only runs for fully connected users. */
    method QuitUser(user: User)
      requires Valid() && user in users
      modifies user`quitting, records`accepting, records`wholistsme
      ensures Valid() && user.quitting
      ensures forall u, v :: u in users && v in users ==> (Accepts(u, v) <==> old(Accepts(u, v)) && (v == user ==> Lost(u, v)))
    {
      if user.quitting {
        return;
      }
      assert !user.connected ==> forall u :: u in users ==> !Accepts(u, user);
      user.quitting := true;
      assert forall u, v :: u in users && v in users ==> (Accepts(u, v) <==> old(Accepts(u, v)));
      assert forall u, v :: u in users && v in users ==> (PointsBack(u, v) <==> old(PointsBack(u, v)));
      assert forall u, v :: u in users && v in users ==> (Lost(u, v) <==> old(Lost(u, v)));
      assert Shape() && Linked();
      hide Shape, Linked, Accepts;
      if user.connected {
        RemoveFromAllAccepts(user);
      }
      StillLiveWithout(user);
    }

    /** Deletes a quitting user whom nobody lists, and their record. */
    method Cull(user: User) returns (noPointer: bool)
      requires Valid() && user in users && user.quitting && forall u :: u in users ==> !Lost(u, user)
      modifies this`users, this`records, this`lost, user`data, records`wholistsme
      ensures Valid() && users == old(users) - {user} && records == old(records) - {old(user.data)}
      ensures noPointer <==> exists v :: v in users && old(Lost(user, v))
      ensures forall u, v :: u in users && v in users ==> (Accepts(u, v) <==> old(Accepts(u, v)))
      ensures forall u, v :: u in users && v in users ==> (Lost(u, v) <==> old(Lost(u, v)))
    {
      hide Linked, LinkedBut, PointsBack, Accepts, AcceptedAreLive;
      QuittingUserIsUnlisted(user);
      noPointer := Unpoint(user);
      StillLive([]);
      Remove(user);
    }

    method Remove(user: User)
      requires Shape() && LinkedBut(user) && AcceptedAreLive() && user in users
      requires forall u :: u in users && u != user ==> !Accepts(u, user)
      modifies this`users, this`records, this`lost, user`data
      ensures Valid() && users == old(users) - {user} && records == old(records) - {old(user.data)}
      ensures forall u, v :: u in users && v in users ==> (Accepts(u, v) <==> old(Accepts(u, v)))
      ensures forall u, v :: u in users && v in users ==> (Lost(u, v) <==> old(Lost(u, v)))
    {
      hide LinkedBut, PointsBack, Accepts, AcceptedAreLive, Shape;
      UnpointedRecord(user);
      lost := set p | p in lost && p.0 != user && p.1 != user;
      records := records - {user.data};
      users := users - {user};
      user.data := null;
      RemovedKeeps(user);
    }

    twostate lemma RemovedKeeps(user: User)
      requires old(Shape()) && old(LinkedBut(user)) && old(AcceptedAreLive()) && user in old(users) && users == old(users) - {user}
      requires records == old(records) - {old(user.data)} && lost == set p | p in old(lost) && p.0 != user && p.1 != user
      requires forall u :: u in users ==> u.data == old(u.data) && u.quitting == old(u.quitting) && u.connected == old(u.connected)
      requires forall r :: r in records ==> r.accepting == old(r.accepting) && r.wholistsme == old(r.wholistsme)
      requires forall r :: r in records ==> (old(user.data) != null ==> old(user.data) !in r.wholistsme) && (r.owner != user ==> user !in r.accepting)
      ensures Valid()
      ensures forall u, v :: u in users && v in users ==> (Accepts(u, v) <==> old(Accepts(u, v)))
      ensures forall u, v :: u in users && v in users ==> (Lost(u, v) <==> old(Lost(u, v)))
    {
      assert Shape();
      assert forall u, v :: u in users && v in users ==> (PointsBack(v, u) <==> old(PointsBack(v, u)));
      assert forall u, v :: u in users && v in users ==> (Lost(u, v) <==> old(Lost(u, v)));
      assert forall u, v :: u in users && v in users ==> (Accepts(u, v) <==> old(Accepts(u, v)));
    }

    lemma UnpointedRecord(user: User)
      requires Shape() && LinkedBut(user) && user in users
      requires forall u :: u in users && u != user ==> !Accepts(u, user)
      ensures forall r :: r in records ==> (user.data != null ==> user.data !in r.wholistsme)
      ensures forall r :: r in records && r.owner != user ==> user !in r.accepting
    {
      assert forall r :: r in records ==> !PointsBack(r.owner, user);
      assert forall r :: r in records && r.owner != user ==> !Accepts(r.owner, user);
    }

    // ----- reloading the module

    /** All pairs of a user and somebody they accept. */
    ghost function Entries(): set<(User, User)>
      reads this, users, records
    {
      set u, v | u in users && v in users && u.data in records && Accepts(u, v) :: (u, v)
    }

    /** Deletes the records of all users in the given order. */
    method Unload(order: seq<User>) returns (reported: bool)
      requires Valid() && NoDuplicates(order) && forall u :: u in order <==> u in users && u.data != null
      modifies this`records, this`lost, users`data, records`wholistsme
      ensures Valid() && lost == {} && records == {} && forall u :: u in users ==> u.data == null
      ensures reported <==> AnyTrouble(order, old(Entries()), old(lost))
    {
      ghost var entries := Entries();
      UnloadingStarts(order);
      hide Valid, Unloading, Entries;
      reported := false;
      for i := 0 to |order|
        invariant Unloading(order, i, entries) && records <= old(records) && lost == old(lost)
        invariant reported <==> exists k :: 0 <= k < i && Troubled(order, k, entries, lost)
      {
        var trouble := UnloadStep(order, i, entries);
        reported := reported || trouble;
      }
      UnloadingEnds(order, entries);
      lost := {};
      EmptyIsValid();
    }

    /** The state when the records before position `i` are gone. */
    ghost predicate Unloading(order: seq<User>, i: nat, entries: set<(User, User)>)
      requires i <= |order|
      reads this, users, records
    {
      && Shape() && NoDuplicates(order)
      && (forall u :: u in order ==> u in users)
      && (forall u :: u in users ==> (u in order[i..] <==> u.data != null))
      && (forall u, v {:trigger Accepts(u, v)} :: u in order[i..] && u in users && u.data in records && v in users ==> (Accepts(u, v) <==> (u, v) in entries))
      && (forall p :: p in entries ==> p.1 in order)
      && (forall u, v {:trigger PointsBack(v, u)} :: u in order[i..] && v in order[i..] && v in users && v.data in records ==>
            (PointsBack(v, u) <==> (u, v) in entries && (u, v) !in lost))
    }

    lemma UnloadingStarts(order: seq<User>)
      requires Valid() && NoDuplicates(order) && forall u :: u in order <==> u in users && u.data != null
      ensures Unloading(order, 0, Entries())
    {
      assert order[0..] == order;
      LinkedAt();
      assert forall u, v :: u in users && v in users && Accepts(u, v) ==> v.data != null;
    }

    lemma UnloadingEnds(order: seq<User>, entries: set<(User, User)>)
      requires Unloading(order, |order|, entries)
      ensures Shape() && forall u :: u in users ==> u.data == null
    {
    }

    method UnloadStep(order: seq<User>, i: nat, ghost entries: set<(User, User)>) returns (trouble: bool)
      requires i < |order| && Unloading(order, i, entries)
      modifies this`records, users`data, records`wholistsme
      ensures Unloading(order, i + 1, entries) && records <= old(records)
      ensures trouble <==> Troubled(order, i, entries, lost)
    {
      hide Accepts, PointsBack, NoDuplicates;
      var user := order[i];
      SplitAt(order, i);
      assert user in order[i..];
      UnloadingEntries(order, i, entries);
      assert forall v :: v in order[i..] ==> v in order;
      var noRecord, noPointer := UnloadOne(user);
      trouble := noRecord || noPointer;
    }

    static lemma SplitAt<T>(s: seq<T>, i: nat)
      requires NoDuplicates(s) && i < |s|
      ensures s[i] !in s[..i] && s[i] !in s[i + 1..]
      ensures forall x :: x in s[i..] <==> x == s[i] || x in s[i + 1..]
      ensures forall x :: x in s ==> (x in s[..i] <==> x !in s[i..])
    {
      assert s == s[..i] + s[i..];
    }

    lemma EmptyIsValid()
      requires Shape() && lost == {} && forall u :: u in users ==> u.data == null
      ensures Valid() && records == {}
    {
    }

    lemma UnloadingEntries(order: seq<User>, i: nat, entries: set<(User, User)>)
      requires i < |order| && Unloading(order, i, entries)
      ensures forall u, v :: u in users && v in users && PointsBack(v, u) ==> Accepts(u, v)
      ensures forall v :: v in users && Accepts(order[i], v) ==> (order[i], v) in entries && v in order
    {
      var user := order[i];
      assert user in order[i..] && user in order;
      assert user in users && user.data in records;
      forall v | v in users && Accepts(user, v)
        ensures (user, v) in entries && v in order
      {
        assert (user, v).1 in order;
      }
    }

    method UnloadOne(user: User) returns (noRecord: bool, noPointer: bool)
      requires Shape() && user in users && user.data != null
      requires forall u, v :: u in users && v in users && PointsBack(v, u) ==> Accepts(u, v)
      modifies this`records, user`data, records`wholistsme
      ensures Shape() && user.data == null && records <= old(records)
      ensures forall u, v :: u in users && v in users ==> (PointsBack(v, u) <==> u != user && v != user && old(PointsBack(v, u)))
      ensures forall u, v :: u in users && v in users && u != user ==> (Accepts(u, v) <==> old(Accepts(u, v)))
      ensures noRecord <==> exists v :: v in users && old(Accepts(user, v)) && old(v.data) == null
      ensures noPointer <==> exists v :: v in users && old(Accepts(user, v)) && old(v.data) != null && !old(PointsBack(v, user))
    {
      var dat := user.data;
      assert forall v :: v in users && v.data != null && dat in v.data.wholistsme ==> PointsBack(v, user) && Accepts(user, v);
      noRecord, noPointer := OnDelete(dat);
      records := records - {dat};
      user.data := null;
    }

    /** The entries that are lost when the first `n` records are restored in this order: those for somebody who comes later. */
    ghost function LostPairs(order: seq<User>, saved: map<User, Saved>, n: nat): set<(User, User)>
      requires n <= |order| && forall u :: u in order ==> u in saved
      reads order`quitting
    {
      set i, j | 0 <= i < j < n && Names(saved[order[i]], order[j]) :: (order[i], order[j])
    }

    /** The records of the users in `done`, and no others, have been restored. */
    ghost predicate Holding(saved: map<User, Saved>, done: set<User>)
      requires forall u :: u in done ==> u in saved
      reads this, users, records
    {
      && Valid() && done <= users
      && (forall u, v {:trigger Accepts(u, v)} :: u in users && v in users ==> (Accepts(u, v) <==> u in done && Names(saved[u], v)))
      && (forall u {:trigger LastNotify(u)} :: u in users ==> LastNotify(u) == if u in done then saved[u].lastnotify else 0)
    }

    /** The state when the records before position `n` have been restored. */
    ghost predicate Restored(order: seq<User>, saved: map<User, Saved>, n: nat)
      requires n <= |order| && forall u :: u in order ==> u in saved
      reads this, users, records, order
    {
      && NoDuplicates(order) && (forall u :: u in order ==> u in users)
      && Holding(saved, set i | 0 <= i < n :: order[i])
      && lost == LostPairs(order, saved, n)
    }

    /**
     Restores records one after the other into a module without any.  Exactly the entries for
     somebody whose record is restored later are lost, and nothing is reported.
     */
    method RestoreAll(order: seq<User>, saved: map<User, Saved>)
      requires Valid() && (forall u :: u in users ==> u.data == null)
      requires NoDuplicates(order) && forall u :: u in order ==> u in users && u in saved
      requires forall u, v :: u in order && v in saved[u].accepted && v != null ==> v in users && v.connected
      modifies this`records, this`lost, users`data, records`wholistsme
      ensures Restored(order, saved, |order|) && fresh(records - old(records))
      ensures lost == {} <==> forall i, j :: 0 <= i < j < |order| ==> !Names(saved[order[i]], order[j])
    {
      RestoringStarts(order, saved);
      hide Restored;
      for n := 0 to |order|
        invariant Restored(order, saved, n) && fresh(records - old(records))
      {
        RestoreStep(order, saved, n);
      }
      RestoringEnds(order, saved);
    }

    lemma RestoringStarts(order: seq<User>, saved: map<User, Saved>)
      requires Valid() && (forall u :: u in users ==> u.data == null)
      requires NoDuplicates(order) && forall u :: u in order ==> u in users && u in saved
      ensures Restored(order, saved, 0)
    {
      assert forall u, v :: u in users && v in users ==> !Accepts(u, v) && !Lost(u, v);
      assert lost == {};
    }

    lemma RestoringEnds(order: seq<User>, saved: map<User, Saved>)
      requires (forall u :: u in order ==> u in saved) && Restored(order, saved, |order|)
      ensures lost == {} <==> forall i, j :: 0 <= i < j < |order| ==> !Names(saved[order[i]], order[j])
    {
      if i, j :| 0 <= i < j < |order| && Names(saved[order[i]], order[j]) {
        assert (order[i], order[j]) in lost;
      }
    }

    lemma LostInStep(order: seq<User>, saved: map<User, Saved>, n: nat)
      requires n < |order| && (forall u :: u in order ==> u in saved) && Restored(order, saved, n)
      ensures LostAfter(order[n]) == LostPairs(order, saved, n + 1)
      ensures forall v :: v in users ==> !Lost(order[n], v)
    {
      var user := order[n];
      forall u | u in users && u.data in records && u != user && Accepts(u, user)
        ensures (u, user) in LostPairs(order, saved, n + 1)
      {
        var i :| 0 <= i < n && order[i] == u;
        assert (order[i], order[n]) in LostPairs(order, saved, n + 1);
      }
      forall i | 0 <= i < n && Names(saved[order[i]], user)
        ensures (order[i], user) in LostAfter(user)
      {
        assert Accepts(order[i], user);
      }
    }

    method RestoreStep(order: seq<User>, saved: map<User, Saved>, n: nat)
      requires n < |order| && (forall u :: u in order ==> u in saved) && Restored(order, saved, n)
      requires forall v :: v in saved[order[n]].accepted && v != null ==> v in users && v.connected
      modifies this`records, this`lost, users`data, records`wholistsme
      ensures Restored(order, saved, n + 1) && fresh(records - old(records))
    {
      LostInStep(order, saved, n);
      ghost var done := set i | 0 <= i < n :: order[i];
      assert order[n] in order && order[n] !in done;
      assert done + {order[n]} == set i | 0 <= i < n + 1 :: order[i];
      hide Holding, LostAfter, LostPairs, NoDuplicates, Lost;
      var noPointer := RestoreOne(order[n], saved, done);
      assert !noPointer; // inconsistency (2)
    }

    method RestoreOne(user: User, saved: map<User, Saved>, ghost done: set<User>) returns (noPointer: bool)
      requires user in users && user in saved && user !in done && (forall u :: u in done ==> u in saved) && Holding(saved, done)
      requires forall v :: v in saved[user].accepted && v != null ==> v in users && v.connected
      modifies this`records, this`lost, users`data, records`wholistsme
      ensures Holding(saved, done + {user}) && fresh(records - old(records)) && lost == old(LostAfter(user))
      ensures noPointer <==> exists v :: v in users && old(Lost(user, v))
    {
      hide Valid, LostAfter, Accepts, LastNotify, ListedByOther, Lost;
      noPointer := FromInternal(user, saved[user].lastnotify, saved[user].accepted);
    }

    method SaveAll(order: seq<User>) returns (saved: map<User, Saved>)
      requires Shape() && forall u :: u in order ==> u in users && u.data != null
      ensures forall u :: u in order ==> u in saved
      ensures forall u :: u in order ==> saved[u].lastnotify == LastNotify(u)
      ensures forall u, v: User? :: u in order ==> (v in saved[u].accepted <==> v != null && Accepts(u, v))
      ensures forall u, v: User? :: u in order && v in saved[u].accepted && v != null ==> v in users
    {
      saved := map[];
      for i := 0 to |order|
        invariant forall k :: 0 <= k < i ==> order[k] in saved
        invariant forall k :: 0 <= k < i ==> saved[order[k]].lastnotify == LastNotify(order[k])
        invariant forall k, v: User? :: 0 <= k < i ==> (v in saved[order[k]].accepted <==> v != null && Accepts(order[k], v))
      {
        var u := order[i];
        assert u in order;
        assert u.data in records;
        var accepted := ListOut(u.data.accepting);
        saved := saved[u := Saved(u.data.lastnotify, accepted)];
      }
    }

    static method ListOut(s: set<User>) returns (list: seq<User?>)
      ensures forall v: User? :: v in list <==> v != null && v in s
    {
      list := [];
      var todo := s;
      while todo != {}
        invariant todo <= s && forall v: User? :: v in list <==> v != null && v in s - todo
      {
        var u: User :| u in todo;
        list := list + [u];
        todo := todo - {u};
      }
    }

    /**
     Reloads the module: all records are saved, deleted and restored in the order in which users are
     stored.  Everyone accepts the same users as before, but the entries for somebody who comes later
     are lost; deleting reports an inconsistency for every entry for somebody who came earlier.
     */
    method Reload(order: seq<User>) returns (reported: bool)
      requires Valid() && (forall u :: u in users ==> !u.quitting)
      requires NoDuplicates(order) && forall u :: u in order <==> u in users && u.data != null
      modifies this`records, this`lost, users`data, records`wholistsme
      ensures Valid()
      ensures forall u, v :: u in users && v in users ==> (Accepts(u, v) <==> old(Accepts(u, v)))
      ensures forall u :: u in users ==> LastNotify(u) == old(LastNotify(u))
      ensures lost == Forward(order, old(Entries()))
      ensures reported <==> old(lost) != {} || Backward(order, old(Entries())) != {}
      ensures !reported && lost == {} <==> forall p :: p in old(Entries()) ==> p.0 == p.1
    {
      hide Valid, Shape, Restored, Entries, Accepts, LastNotify, Forward, Backward, NoDuplicates, Names, LostPairs, AnyTrouble;
      ghost var entries := Entries();
      ReloadFacts(order);
      TroubledIff(order, entries, lost);
      ForwardOrBackward(order, entries);
      var saved := SaveAll(order);
      reported := Unload(order);
      RestoreAll(order, saved);
      RestoredEntries(order, saved, entries);
    }

    lemma RestoredEntries(order: seq<User>, saved: map<User, Saved>, entries: set<(User, User)>)
      requires (forall u :: u in order ==> u in saved) && Restored(order, saved, |order|) && forall u :: u in users ==> !u.quitting
      requires forall p :: p in entries ==> p.0 in order && p.1 in order
      requires forall u, v :: u in order && v in users ==> (v in saved[u].accepted <==> (u, v) in entries)
      ensures Valid() && lost == Forward(order, entries)
      ensures forall u, v :: u in users && v in users ==> (Accepts(u, v) <==> (u, v) in entries)
      ensures forall u :: u in users ==> LastNotify(u) == if u in order then saved[u].lastnotify else 0
    {
      assert forall i :: 0 <= i < |order| ==> order[i] in order;
      forall i, j | 0 <= i < j < |order|
        ensures Names(saved[order[i]], order[j]) <==> (order[i], order[j]) in entries
      {
      }
    }

    lemma ReloadFacts(order: seq<User>)
      requires Valid() && forall u :: u in order <==> u in users && u.data != null
      ensures Shape() && lost <= Entries() && forall p :: p in lost ==> p.0 != p.1
      ensures forall p :: p in Entries() ==> p.0 in order && p.1 in order && p.1.connected
      ensures forall u :: u in users && u.data == null ==> LastNotify(u) == 0
      ensures forall u, v :: u in users && v in users ==> (Accepts(u, v) <==> (u, v) in Entries())
    {
      LinkedAt();
    }
  }

  /** The things that can happen; users are named by their identifier. */
  datatype Step =
    | Connect(id: nat, isLocal: bool)
    | Register(id: nat)
    | Accept(id: nat, target: nat, adding: bool)
    | Message(id: nat, target: nat, hasMode: bool, mayIgnore: bool, now: int)
    | ChangeNick(id: nat)
    | Quit(id: nat)
    | Cull(id: nat)
    | Deserialise(id: nat, lastnotify: int, accepted: seq<nat>)
    | Configure(maxaccepts: nat, tracknick: bool, notifyCooldown: int)

  // ----- the same as a plain relation between identifiers

  datatype Info = Info(isLocal: bool, connected: bool, quitting: bool)

  /**
   The configuration, who is there, the pairs of a user and somebody they accept, and those of them
   that have lost their pointer back.
   */
  datatype Relation = Relation(maxaccepts: nat, tracknick: bool, people: map<nat, Info>, accepted: set<(nat, nat)>, lost: set<(nat, nat)>)

  function Start(maxaccepts: nat, tracknick: bool): Relation
  {
    Relation(maxaccepts, tracknick, map[], {}, {})
  }

  /** The users that `id` accepts. */
  ghost function ListOf(r: Relation, id: nat): set<nat>
  {
    set p | p in r.accepted && p.0 == id :: p.1
  }

  /** Whether ACCEPT finds a target that is not on its way out, and concerns this server. */
  predicate Reaches(people: map<nat, Info>, id: nat, target: nat)
  {
    && id in people && target in people && people[target].connected && !people[target].quitting
    && (people[id].isLocal || people[target].isLocal)
  }

  /** The pairs of others that accept `id`. */
  ghost function Listers(r: Relation, id: nat): set<(nat, nat)>
  {
    set p | p in r.accepted && p.1 == id && p.0 != id
  }

  /** The users that a serialised record names, as far as they are fully connected and not quitting. */
  ghost function Found(people: map<nat, Info>, accepted: seq<nat>): set<nat>
  {
    set t | t in accepted && t in people && people[t].connected && !people[t].quitting
  }

  /** What a step does to the relation. */
  ghost function After(r: Relation, step: Step): Relation
  {
    match step
    case Connect(id, isLocal) =>
      if id in r.people then r else r.(people := r.people[id := Info(isLocal, false, false)])
    case Register(id) =>
      if id !in r.people then r else r.(people := r.people[id := r.people[id].(connected := true)])
    case Accept(id, target, adding) =>
      if !Reaches(r.people, id, target) then r
      else if !adding then r.(accepted := r.accepted - {(id, target)}, lost := r.lost - {(id, target)})
      else if |ListOf(r, id)| < r.maxaccepts then r.(accepted := r.accepted + {(id, target)})
      else r
    case Message(_, _, _, _, _) => r
    case ChangeNick(id) =>
      if id !in r.people || !r.people[id].connected || r.people[id].quitting || r.tracknick then r
      else r.(accepted := set p | p in r.accepted && (p.1 == id ==> p in r.lost))
    case Quit(id) =>
      if id !in r.people then r
      else r.(people := r.people[id := r.people[id].(quitting := true)], accepted := set p | p in r.accepted && (p.1 == id ==> p in r.lost))
    case Cull(id) =>
      if id !in r.people || !r.people[id].quitting then r
      else r.(people := r.people - {id}, accepted := (set p | p in r.accepted && p.0 != id), lost := (set p | p in r.lost && p.0 != id))
    case Deserialise(id, _, accepted) =>
      if id !in r.people then r
      else
        r.(accepted := (set p | p in r.accepted && p.0 != id) + (set t | t in Found(r.people, accepted) :: (id, t)),
           lost := (set p | p in r.lost && p.0 != id) + Listers(r, id))
    case Configure(maxaccepts, tracknick, _) => r.(maxaccepts := maxaccepts, tracknick := tracknick)
  }

  ghost function AfterAll(r: Relation, steps: seq<Step>): Relation
  {
    if steps == [] then r else After(AfterAll(r, steps[..|steps| - 1]), steps[|steps| - 1])
  }

  /** The relation after the first `n` steps. */
  ghost function Before(r: Relation, steps: seq<Step>, n: nat): Relation
    requires n <= |steps|
  {
    AfterAll(r, steps[..n])
  }

  lemma BeforeNext(r: Relation, steps: seq<Step>, n: nat)
    requires n < |steps|
    ensures Before(r, steps, n + 1) == After(Before(r, steps, n), steps[n])
  {
    assert steps[..n + 1][..n] == steps[..n];
  }

  /** A user is only deleted once nobody lists them; otherwise a list would hold a user who is gone. */
  ghost predicate Safe(r: Relation, step: Step)
  {
    step.Cull? && step.id in r.people && r.people[step.id].quitting ==> forall p :: p in r.lost ==> p.1 != step.id
  }

  ghost predicate SafeRun(r: Relation, steps: seq<Step>)
  {
    forall n :: 0 <= n < |steps| ==> Safe(Before(r, steps, n), steps[n])
  }

  /** Whether the module reports inconsistency (2) or (4) in a step: it walks over an entry that has lost its pointer. */
  ghost predicate Reports(r: Relation, step: Step)
  {
    match step
    case Accept(id, target, adding) => !adding && Reaches(r.people, id, target) && (id, target) in r.lost
    case Cull(id) => id in r.people && r.people[id].quitting && exists p :: p in r.lost && p.0 == id
    case Deserialise(id, _, _) => id in r.people && exists p :: p in r.lost && p.0 == id
    case _ => false
  }

  /** A record is only read back while nobody else lists its owner. */
  ghost predicate Unlisted(r: Relation, step: Step)
  {
    step.Deserialise? && step.id in r.people ==> Listers(r, step.id) == {}
  }

  ghost predicate UnlistedRun(r: Relation, steps: seq<Step>)
  {
    forall n :: 0 <= n < |steps| ==> Unlisted(Before(r, steps, n), steps[n])
  }

  /** From a state without lost entries, a step loses one if and only if it reads back the record of a user whom somebody else lists. */
  lemma StepLosesIff(r: Relation, step: Step)
    requires r.lost == {}
    ensures After(r, step).lost == {} <==> Unlisted(r, step)
  {
  }

  lemma {:induction false} NothingLostSoFar(r: Relation, steps: seq<Step>, n: nat)
    requires r.lost == {} && n <= |steps| && forall k :: 0 <= k < n ==> Unlisted(Before(r, steps, k), steps[k])
    ensures Before(r, steps, n).lost == {}
  {
    if n > 0 {
      NothingLostSoFar(r, steps, n - 1);
      BeforeNext(r, steps, n - 1);
      StepLosesIff(Before(r, steps, n - 1), steps[n - 1]);
    }
  }

  /** The two directions agree throughout a run if and only if no record is read back while somebody else lists its owner. */
  lemma NothingLostIff(r: Relation, steps: seq<Step>)
    requires r.lost == {}
    ensures (forall n :: 0 <= n <= |steps| ==> Before(r, steps, n).lost == {}) <==> UnlistedRun(r, steps)
  {
    if forall n :: 0 <= n <= |steps| ==> Before(r, steps, n).lost == {} {
      forall n | 0 <= n < |steps|
        ensures Unlisted(Before(r, steps, n), steps[n])
      {
        BeforeNext(r, steps, n);
        assert Before(r, steps, n + 1).lost == {};
        StepLosesIff(Before(r, steps, n), steps[n]);
      }
    }
    if UnlistedRun(r, steps) {
      forall n | 0 <= n <= |steps|
        ensures Before(r, steps, n).lost == {}
      {
        NothingLostSoFar(r, steps, n);
      }
    }
  }

  /** Such runs are safe and report nothing. */
  lemma UnlistedRunsAreQuiet(r: Relation, steps: seq<Step>)
    requires r.lost == {} && UnlistedRun(r, steps)
    ensures SafeRun(r, steps)
    ensures forall n :: 0 <= n < |steps| ==> !Reports(Before(r, steps, n), steps[n])
  {
    NothingLostIff(r, steps);
    forall n | 0 <= n < |steps|
      ensures Safe(Before(r, steps, n), steps[n])
      ensures !Reports(Before(r, steps, n), steps[n])
    {
      assert Before(r, steps, n).lost == {};
    }
  }

  // ----- inputs

  lemma {:induction false} AfterAppend(r: Relation, front: seq<Step>, back: seq<Step>)
    ensures AfterAll(r, front + back) == AfterAll(AfterAll(r, front), back)
    decreases back
  {
    hide After;
    if back == [] {
      assert front + back == front;
    } else {
      var n := |back| - 1;
      assert (front + back)[..|front + back| - 1] == front + back[..n];
      AfterAppend(r, front, back[..n]);
    }
  }

  lemma AfterOne(r: Relation, step: Step)
    ensures AfterAll(r, [step]) == After(r, step)
  {
    hide After;
    assert [step][..0] == [];
  }

  /** Three local users, of whom 1 and 2 are fully connected. */
  function ThreeJoin(): seq<Step>
  {
    [Connect(0, true)] + [Connect(1, true)] + [Connect(2, true)] + [Register(1)] + [Register(2)]
  }

  lemma ThreeJoined(maxaccepts: nat, tracknick: bool)
    ensures AfterAll(Start(maxaccepts, tracknick), ThreeJoin()) ==
            Relation(maxaccepts, tracknick, map[0 := Info(true, false, false), 1 := Info(true, true, false), 2 := Info(true, true, false)], {}, {})
  {
    hide AfterAll;
    var one, two, three := [Connect(0, true)], [Connect(1, true)], [Connect(2, true)];
    var r := Start(maxaccepts, tracknick);
    AfterAppend(r, one + two + three + [Register(1)], [Register(2)]);
    AfterAppend(r, one + two + three, [Register(1)]);
    AfterAppend(r, one + two, three);
    AfterAppend(r, one, two);
    AfterOne(r, one[0]);
    var r1 := After(r, one[0]);
    AfterOne(r1, two[0]);
    var r2 := After(r1, two[0]);
    AfterOne(r2, three[0]);
    var r3 := After(r2, three[0]);
    AfterOne(r3, Register(1));
    AfterOne(After(r3, Register(1)), Register(2));
  }

  /**
   User 0 accepts user 1, whose record is then read back: the entry is lost.  Removing it reports an
   inconsistency; if user 1 quits instead, it stays, and deleting user 1 is not safe.
   */
  lemma ListedRestoreLoses(maxaccepts: nat, tracknick: bool)
    requires maxaccepts > 0
    ensures var r := AfterAll(Start(maxaccepts, tracknick), ThreeJoin() + [Accept(0, 1, true)] + [Deserialise(1, 0, [])]);
            && r.lost == r.accepted == {(0, 1)}
            && Reports(r, Accept(0, 1, false))
            && After(r, Quit(1)).accepted == {(0, 1)}
            && !Safe(After(r, Quit(1)), Cull(1))
  {
    hide AfterAll;
    ThreeJoined(maxaccepts, tracknick);
    var joined := AfterAll(Start(maxaccepts, tracknick), ThreeJoin());
    assert ListOf(joined, 0) == {};
    var listed := joined.(accepted := {(0, 1)});
    AfterOne(joined, Accept(0, 1, true));
    AfterAppend(Start(maxaccepts, tracknick), ThreeJoin(), [Accept(0, 1, true)]);
    assert Listers(listed, 1) == {(0, 1)};
    AfterOne(listed, Deserialise(1, 0, []));
    AfterAppend(Start(maxaccepts, tracknick), ThreeJoin() + [Accept(0, 1, true)], [Deserialise(1, 0, [])]);
    var r := After(listed, Deserialise(1, 0, []));
    assert r == listed.(lost := {(0, 1)});
  }

  /** A limit of one, and a record with two entries that is read back. */
  lemma RestoreExceedsLimit(tracknick: bool)
    ensures var r := AfterAll(Start(1, tracknick), ThreeJoin() + [Deserialise(0, 0, [1, 2])]);
            ListOf(r, 0) == {1, 2} && |ListOf(r, 0)| > r.maxaccepts
  {
    hide AfterAll;
    ThreeJoined(1, tracknick);
    var joined := AfterAll(Start(1, tracknick), ThreeJoin());
    AfterOne(joined, Deserialise(0, 0, [1, 2]));
    AfterAppend(Start(1, tracknick), ThreeJoin(), [Deserialise(0, 0, [1, 2])]);
    var r := After(joined, Deserialise(0, 0, [1, 2]));
    assert Found(joined.people, [1, 2]) == {1, 2};
    assert (0, 1) in r.accepted && (0, 2) in r.accepted;
    assert ListOf(r, 0) == {1, 2};
  }

  /** Two entries within a limit of two, which the configuration then lowers to one. */
  lemma RehashExceedsLimit(tracknick: bool)
    ensures var r := AfterAll(Start(2, tracknick), ThreeJoin() + [Accept(0, 1, true)] + [Accept(0, 2, true)] + [Configure(1, tracknick, 60)]);
            ListOf(r, 0) == {1, 2} && |ListOf(r, 0)| > r.maxaccepts
  {
    hide AfterAll, Listers, Found;
    var r, steps := Start(2, tracknick), ThreeJoin();
    ThreeJoined(2, tracknick);
    var joined := AfterAll(r, steps);
    assert ListOf(joined, 0) == {};
    var one := joined.(accepted := {(0, 1)});
    AfterOne(joined, Accept(0, 1, true));
    AfterAppend(r, steps, [Accept(0, 1, true)]);
    assert ListOf(one, 0) == {1};
    var two := joined.(accepted := {(0, 1), (0, 2)});
    AfterOne(one, Accept(0, 2, true));
    assert After(one, Accept(0, 2, true)) == two;
    AfterAppend(r, steps + [Accept(0, 1, true)], [Accept(0, 2, true)]);
    AfterOne(two, Configure(1, tracknick, 60));
    AfterAppend(r, steps + [Accept(0, 1, true)] + [Accept(0, 2, true)], [Configure(1, tracknick, 60)]);
    assert (0, 1) in two.accepted && (0, 2) in two.accepted;
    assert ListOf(two.(maxaccepts := 1), 0) == {1, 2};
  }

  // ----- who is accepted

  /** Everyone accepted is there and fully connected, and on their way out only through a lost entry. */
  ghost predicate OnlyLiveAccepted(r: Relation)
  {
    && r.lost <= r.accepted
    && (forall p :: p in r.lost ==> p.0 != p.1)
    && forall p :: p in r.accepted ==>
         p.0 in r.people && p.1 in r.people && r.people[p.1].connected && (r.people[p.1].quitting ==> p in r.lost)
  }

  /** A step keeps that if and only if it is safe. */
  lemma StepAcceptsOnlyLiveIff(r: Relation, step: Step)
    requires OnlyLiveAccepted(r)
    ensures OnlyLiveAccepted(After(r, step)) <==> Safe(r, step)
  {
    if !Safe(r, step) {
      var p :| p in r.lost && p.1 == step.id;
      assert p in After(r, step).accepted;
    }
  }

  lemma {:induction false} OnlyLiveSoFar(r: Relation, steps: seq<Step>, n: nat)
    requires OnlyLiveAccepted(r) && SafeRun(r, steps) && n <= |steps|
    ensures OnlyLiveAccepted(Before(r, steps, n))
  {
    hide OnlyLiveAccepted, After;
    if n > 0 {
      OnlyLiveSoFar(r, steps, n - 1);
      BeforeNext(r, steps, n - 1);
      StepAcceptsOnlyLiveIff(Before(r, steps, n - 1), steps[n - 1]);
    }
  }

  /** Throughout a run only such users are accepted, if and only if the run deletes nobody who is still listed. */
  lemma RunsAcceptOnlyLiveIff(r: Relation, steps: seq<Step>)
    requires OnlyLiveAccepted(r)
    ensures (forall n :: 0 <= n <= |steps| ==> OnlyLiveAccepted(Before(r, steps, n))) <==> SafeRun(r, steps)
  {
    hide OnlyLiveAccepted, After, Safe;
    if forall n :: 0 <= n <= |steps| ==> OnlyLiveAccepted(Before(r, steps, n)) {
      forall n | 0 <= n < |steps|
        ensures Safe(Before(r, steps, n), steps[n])
      {
        BeforeNext(r, steps, n);
        assert OnlyLiveAccepted(Before(r, steps, n)) && OnlyLiveAccepted(Before(r, steps, n + 1));
        StepAcceptsOnlyLiveIff(Before(r, steps, n), steps[n]);
      }
    }
    if SafeRun(r, steps) {
      forall n | 0 <= n <= |steps|
        ensures OnlyLiveAccepted(Before(r, steps, n))
      {
        OnlyLiveSoFar(r, steps, n);
      }
    }
  }

  // ----- the limit on accept lists

  /** No accept list is longer than the limit in force. */
  ghost predicate Bounded(r: Relation)
  {
    forall id {:trigger ListOf(r, id)} :: |ListOf(r, id)| <= r.maxaccepts
  }

  /** A record that is read back names no more users than the limit, and a new limit leaves room for the lists there are. */
  ghost predicate WithinLimit(r: Relation, step: Step)
  {
    match step
    case Deserialise(id, _, accepted) => id in r.people ==> |Found(r.people, accepted)| <= r.maxaccepts
    case Configure(maxaccepts, _, _) => forall id {:trigger ListOf(r, id)} :: |ListOf(r, id)| <= maxaccepts
    case _ => true
  }

  /** Apart from reading back the user's own record, no step makes a list longer than it was or than the limit. */
  lemma ListGrowth(r: Relation, step: Step, id: nat)
    requires !(step.Deserialise? && step.id == id)
    ensures |ListOf(After(r, step), id)| <= |ListOf(r, id)| || |ListOf(After(r, step), id)| <= r.maxaccepts
  {
    var before, after := ListOf(r, id), ListOf(After(r, step), id);
    if step.Accept? && step.id == id && step.adding && |before| < r.maxaccepts {
      assert after <= before + {step.target};
      Fewer(after, before + {step.target});
    } else {
      assert after <= before;
      Fewer(after, before);
    }
  }

  lemma RestoredList(r: Relation, step: Step)
    requires step.Deserialise? && step.id in r.people
    ensures ListOf(After(r, step), step.id) == Found(r.people, step.accepted)
  {
    var r', found := After(r, step), Found(r.people, step.accepted);
    forall t | t in found
      ensures t in ListOf(r', step.id)
    {
      assert (step.id, t) in r'.accepted;
    }
  }

  lemma ConfiguredLists(r: Relation, step: Step, id: nat)
    requires step.Configure?
    ensures ListOf(After(r, step), id) == ListOf(r, id)
  {
  }

  /** A step leaves all lists within the limit if and only if it keeps to it in that sense. */
  lemma StepBoundedIff(r: Relation, step: Step)
    requires Bounded(r)
    ensures Bounded(After(r, step)) <==> WithinLimit(r, step)
  {
    hide ListOf, Found;
    if step.Configure? {
      forall id: nat | true
        ensures ListOf(After(r, step), id) == ListOf(r, id)
      {
        ConfiguredLists(r, step, id);
      }
    } else {
      if step.Deserialise? && step.id in r.people {
        RestoredList(r, step);
      }
      forall id: nat | !(step.Deserialise? && step.id == id)
        ensures |ListOf(After(r, step), id)| <= r.maxaccepts
      {
        ListGrowth(r, step, id);
      }
    }
  }

  lemma {:induction false} BoundedSoFar(r: Relation, steps: seq<Step>, n: nat)
    requires Bounded(r) && n <= |steps| && forall k :: 0 <= k < n ==> WithinLimit(Before(r, steps, k), steps[k])
    ensures Bounded(Before(r, steps, n))
  {
    hide Bounded, WithinLimit, After;
    if n > 0 {
      BoundedSoFar(r, steps, n - 1);
      BeforeNext(r, steps, n - 1);
      StepBoundedIff(Before(r, steps, n - 1), steps[n - 1]);
    }
  }

  /** Throughout a run no accept list is longer than the limit in force, if and only if every step keeps to it in that sense. */
  lemma ListsAreBoundedIff(r: Relation, steps: seq<Step>)
    requires Bounded(r)
    ensures (forall n :: 0 <= n <= |steps| ==> Bounded(Before(r, steps, n)))
            <==> forall n :: 0 <= n < |steps| ==> WithinLimit(Before(r, steps, n), steps[n])
  {
    hide Bounded, WithinLimit, After;
    if forall n :: 0 <= n <= |steps| ==> Bounded(Before(r, steps, n)) {
      forall n | 0 <= n < |steps|
        ensures WithinLimit(Before(r, steps, n), steps[n])
      {
        BeforeNext(r, steps, n);
        assert Bounded(Before(r, steps, n)) && Bounded(Before(r, steps, n + 1));
        StepBoundedIff(Before(r, steps, n), steps[n]);
      }
    }
    if forall n :: 0 <= n < |steps| ==> WithinLimit(Before(r, steps, n), steps[n]) {
      forall n | 0 <= n <= |steps|
        ensures Bounded(Before(r, steps, n))
      {
        BoundedSoFar(r, steps, n);
      }
    }
  }

  function Below(n: nat): (r: set<nat>)
    ensures |r| == n && forall i: nat :: i in r <==> i < n
  {
    if n == 0 then {} else Below(n - 1) + {n - 1}
  }

  /** A change of the limit is safe whatever the lists if and only if it does not lower it. */
  lemma NewLimitSafeIff(limit: nat, maxaccepts: nat, tracknick: bool, cooldown: int)
    ensures (forall r :: Bounded(r) && r.maxaccepts == limit ==> Bounded(After(r, Configure(maxaccepts, tracknick, cooldown))))
            <==> maxaccepts >= limit
  {
    var step := Configure(maxaccepts, tracknick, cooldown);
    if maxaccepts >= limit {
      forall r | Bounded(r) && r.maxaccepts == limit
        ensures Bounded(After(r, step))
      {
        StepBoundedIff(r, step);
      }
    } else {
      var r := FullList(limit);
      StepBoundedIff(r, step);
      assert |ListOf(r, 0)| == limit;
    }
  }

  lemma FullList(limit: nat) returns (r: Relation)
    ensures Bounded(r) && r.maxaccepts == limit && |ListOf(r, 0)| == limit
  {
    r := Relation(limit, false, map[], set i | i in Below(limit) :: (0, i), {});
    forall i | i in Below(limit)
      ensures i in ListOf(r, 0)
    {
      assert (0, i) in r.accepted;
    }
    assert ListOf(r, 0) == Below(limit);
    forall id: nat | id != 0
      ensures ListOf(r, id) == {}
    {
    }
  }

  lemma {:induction false} Fewer(a: set<nat>, b: set<nat>)
    requires a <= b
    ensures |a| <= |b|
  {
    if a != {} {
      var x :| x in a;
      Fewer(a - {x}, b - {x});
    }
  }

  /** The module together with the user manager's index of users. */
  class Network {
    const callerid: Module
    var registry: map<nat, User>

    ghost predicate Valid()
      reads this, callerid, callerid.users, callerid.records
    {
      callerid.Valid() && callerid.users == registry.Values && forall id :: id in registry ==> registry[id].id == id
    }

    constructor (maxaccepts: nat, tracknick: bool, notifyCooldown: int)
      ensures Valid() && fresh(callerid) && Represents(Start(maxaccepts, tracknick))
    {
      callerid := new Module(maxaccepts, tracknick, notifyCooldown);
      registry := map[];
    }

    /** The fully connected user with the given identifier. */
    function Find(id: nat): (u: User?)
      reads this, registry.Values
      ensures u != null ==> id in registry && u == registry[id] && u.connected
    {
      if id in registry && registry[id].connected then registry[id] else null
    }

    static lemma RegistryAfterInsert(m: map<nat, User>, id: nat, user: User)
      requires id !in m
      ensures m[id := user].Values == m.Values + {user}
    {
      var m' := m[id := user];
      assert forall k :: k in m ==> k in m' && m'[k] == m[k];
      assert m'[id] == user;
    }

    static lemma RegistryAfterRemove(m: map<nat, User>, id: nat)
      requires id in m && forall k :: k in m ==> m[k].id == k
      ensures (m - {id}).Values == m.Values - {m[id]}
    {
      var m' := m - {id};
      assert forall k :: k in m' ==> m'[k] == m[k] && m[k] != m[id];
      assert forall k :: k in m && k != id ==> k in m' && m'[k] == m[k];
    }

    /** The user with the first identifier accepts the one with the second. */
    ghost predicate Lists(a: nat, b: nat)
      requires Valid()
      reads this, callerid, callerid.users, callerid.records
    {
      a in registry && b in registry && callerid.Accepts(registry[a], registry[b])
    }

    /** That entry has lost its pointer back. */
    ghost predicate Misses(a: nat, b: nat)
      reads this, callerid
    {
      a in registry && b in registry && callerid.Lost(registry[a], registry[b])
    }

    ghost function People(): map<nat, Info>
      reads this`registry, registry.Values`connected, registry.Values`quitting
    {
      map id | id in registry :: Info(registry[id].isLocal, registry[id].connected, registry[id].quitting)
    }

    lemma PeopleAt(id: nat)
      ensures id in People() <==> id in registry
      ensures id in registry ==> People()[id] == Info(registry[id].isLocal, registry[id].connected, registry[id].quitting)
    {
    }

    /** The records stand for the given relation. */
    ghost predicate Represents(r: Relation)
      requires Valid()
      reads this, callerid, callerid.users, callerid.records
    {
      && r.maxaccepts == callerid.maxaccepts && r.tracknick == callerid.tracknick && r.people == People()
      && (forall a: nat, b: nat {:trigger (a, b) in r.accepted} {:trigger Lists(a, b)} :: (a, b) in r.accepted <==> Lists(a, b))
      && (forall a: nat, b: nat {:trigger (a, b) in r.lost} {:trigger Misses(a, b)} :: (a, b) in r.lost <==> Misses(a, b))
    }

    static lemma {:induction false} CountIds(people: set<User>, ids: set<nat>)
      requires forall u, v :: u in people && v in people && u.id == v.id ==> u == v
      requires forall id :: id in ids <==> exists u :: u in people && u.id == id
      ensures |ids| == |people|
      decreases people
    {
      if people != {} {
        var u :| u in people;
        forall id | id in ids - {u.id}
          ensures exists v :: v in people - {u} && v.id == id
        {
          var v :| v in people && v.id == id;
          assert v in people - {u};
        }
        CountIds(people - {u}, ids - {u.id});
      }
    }

    lemma SameListSize(r: Relation, id: nat)
      requires Valid() && Represents(r) && id in registry
      ensures callerid.ListSize(registry[id]) == |ListOf(r, id)|
    {
      var user := registry[id];
      var people := if user.data == null then {} else user.data.accepting;
      assert user in callerid.users;
      forall v | v in people
        ensures v in registry.Values && v.id in registry && registry[v.id] == v && (id, v.id) in r.accepted
      {
        assert v in callerid.users;
        assert callerid.Accepts(user, v);
      }
      forall b | b in ListOf(r, id)
        ensures exists u :: u in people && u.id == b
      {
        assert (id, b) in r.accepted;
        assert registry[b] in people;
      }
      forall b | exists u :: u in people && u.id == b
        ensures b in ListOf(r, id)
      {
        assert (id, b) in r.accepted;
      }
      CountIds(people, ListOf(r, id));
    }

    method Enter(id: nat, isLocal: bool)
      requires Valid() && id !in registry
      modifies this`registry, callerid`users
      ensures Valid() && fresh(callerid.users - old(callerid.users))
      ensures People() == old(People())[id := Info(isLocal, false, false)]
      ensures forall a: nat, b: nat :: (Lists(a, b) <==> old(Lists(a, b))) && (Misses(a, b) <==> old(Misses(a, b)))
    {
      hide Module.Shape, Module.Linked, Module.AcceptedAreLive, Module.PointsBack, Module.Accepts, Module.Lost;
      callerid.LostAreUsers();
      var user := callerid.AddUser(id, isLocal);
      RegistryAfterInsert(registry, id, user);
      registry := registry[id := user];
    }

    method Welcome(id: nat)
      requires Valid() && id in registry
      modifies callerid.users
      ensures Valid() && People() == old(People())[id := old(People()[id]).(connected := true)]
      ensures forall a: nat, b: nat :: (Lists(a, b) <==> old(Lists(a, b))) && (Misses(a, b) <==> old(Misses(a, b)))
    {
      hide Module.Shape, Module.Linked, Module.AcceptedAreLive, Module.PointsBack, Module.Accepts, Module.Lost;
      callerid.Register(registry[id]);
    }

    method Accept(id: nat, target: nat, adding: bool) returns (noPointer: bool)
      requires Valid() && id in registry
      modifies callerid`records, callerid`lost, callerid.users, callerid.records
      ensures Valid() && fresh(callerid.records - old(callerid.records)) && People() == old(People())
      ensures noPointer <==> !adding && Reaches(People(), id, target) && old(Misses(id, target))
      ensures forall a: nat, b: nat :: Lists(a, b) <==>
                if a == id && b == target && Reaches(People(), id, target)
                then adding && (old(Lists(a, b)) || old(callerid.ListSize(registry[id])) < callerid.maxaccepts)
                else old(Lists(a, b))
      ensures forall a: nat, b: nat :: Misses(a, b) <==> old(Misses(a, b)) && !(noPointer && a == id && b == target)
    {
      hide Module.Shape, Module.Linked, Module.AcceptedAreLive, Module.PointsBack, Module.Accepts, Module.Lost;
      var _, report := callerid.Handle(registry[id], Find(target), adding);
      noPointer := report;
    }

    method Tell(id: nat, target: nat, hasMode: bool, mayIgnore: bool, now: int)
      requires Valid() && id in registry
      modifies callerid`records, callerid.users, callerid.records
      ensures Valid() && fresh(callerid.records - old(callerid.records)) && People() == old(People())
      ensures forall a: nat, b: nat :: (Lists(a, b) <==> old(Lists(a, b))) && (Misses(a, b) <==> old(Misses(a, b)))
    {
      hide Module.Shape, Module.Linked, Module.AcceptedAreLive, Module.PointsBack, Module.Accepts, Module.Lost;
      var dest := Find(target);
      if dest != null {
        var _, _ := callerid.HandleMessage(registry[id], dest, hasMode, mayIgnore, now);
      }
    }

    method Rename(id: nat)
      requires Valid() && id in registry && registry[id].connected && !registry[id].quitting
      modifies callerid.records
      ensures Valid() && People() == old(People())
      ensures forall a: nat, b: nat :: Lists(a, b) <==> old(Lists(a, b)) && (b == id ==> callerid.tracknick || Misses(a, b))
      ensures forall a: nat, b: nat :: Misses(a, b) <==> old(Misses(a, b))
    {
      hide Module.Shape, Module.Linked, Module.AcceptedAreLive, Module.PointsBack, Module.Accepts, Module.Lost;
      callerid.OnUserPostNick(registry[id]);
    }

    method Quit(id: nat)
      requires Valid() && id in registry
      modifies callerid.users, callerid.records
      ensures Valid() && People() == old(People())[id := old(People()[id]).(quitting := true)]
      ensures forall a: nat, b: nat :: Lists(a, b) <==> old(Lists(a, b)) && (b == id ==> Misses(a, b))
      ensures forall a: nat, b: nat :: Misses(a, b) <==> old(Misses(a, b))
    {
      hide Module.Shape, Module.Linked, Module.AcceptedAreLive, Module.PointsBack, Module.Accepts, Module.Lost;
      callerid.QuitUser(registry[id]);
    }

    method Leave(id: nat) returns (noPointer: bool)
      requires Valid() && id in registry && registry[id].quitting && forall a: nat :: !Misses(a, id)
      modifies this`registry, callerid`users, callerid`records, callerid`lost, callerid.users, callerid.records
      ensures Valid() && callerid.users <= old(callerid.users) && callerid.records <= old(callerid.records)
      ensures People() == old(People()) - {id}
      ensures noPointer <==> exists b: nat :: old(Misses(id, b))
      ensures forall a: nat, b: nat :: Lists(a, b) <==> old(Lists(a, b)) && a != id && b != id
      ensures forall a: nat, b: nat :: Misses(a, b) <==> old(Misses(a, b)) && a != id
    {
      hide Module.Shape, Module.Linked, Module.AcceptedAreLive, Module.PointsBack, Module.Accepts, Module.Lost;
      RegistryAfterRemove(registry, id);
      noPointer := CullUser(id);
      registry := registry - {id};
    }

    method CullUser(id: nat) returns (noPointer: bool)
      requires Valid() && id in registry && registry[id].quitting && forall a: nat :: !Misses(a, id)
      modifies callerid`users, callerid`records, callerid`lost, callerid.users`data, callerid.records`wholistsme
      ensures callerid.Valid() && callerid.users == old(callerid.users) - {registry[id]} && callerid.records <= old(callerid.records)
      ensures noPointer <==> exists b: nat :: old(Misses(id, b))
      ensures forall a: nat, b: nat :: a in registry && b in registry && a != id && b != id ==>
                && (callerid.Accepts(registry[a], registry[b]) <==> old(Lists(a, b)))
                && (callerid.Lost(registry[a], registry[b]) <==> old(Misses(a, b)))
    {
      hide Module.Shape, Module.Linked, Module.AcceptedAreLive, Module.PointsBack, Module.Accepts, Module.Lost;
      MissesAny(id);
      NobodyMisses(id);
      noPointer := callerid.Cull(registry[id]);
    }

    lemma NobodyMisses(id: nat)
      requires Valid() && id in registry && forall a: nat :: !Misses(a, id)
      ensures forall u :: u in callerid.users ==> !callerid.Lost(u, registry[id])
    {
      forall u | u in callerid.users
        ensures !callerid.Lost(u, registry[id])
      {
        assert !Misses(u.id, id);
      }
    }

    /** Reads a user's record back. */
    method Restore(id: nat, lastnotify: int, accepted: seq<nat>) returns (noPointer: bool)
      requires Valid() && id in registry
      modifies callerid`records, callerid`lost, callerid.users, callerid.records
      ensures Valid() && fresh(callerid.records - old(callerid.records)) && People() == old(People())
      ensures noPointer <==> exists b: nat :: old(Misses(id, b))
      ensures forall a: nat, b: nat :: Lists(a, b) <==>
                if a == id then b in accepted && b in People() && People()[b].connected && !People()[b].quitting else old(Lists(a, b))
      ensures forall a: nat, b: nat :: Misses(a, b) <==> a != id && (old(Misses(a, b)) || (b == id && old(Lists(a, b))))
    {
      hide Module.Shape, Module.Linked, Module.AcceptedAreLive, Module.PointsBack, Module.Accepts, Module.Lost;
      hide Module.LostAfter, Module.ListedByOther, Module.LastNotify, FindAll;
      MissesAny(id);
      noPointer := callerid.FromInternal(registry[id], lastnotify, FindAll(accepted));
    }

    method PerformAccept(id: nat, target: nat, adding: bool, ghost r: Relation) returns (reported: bool)
      requires Valid() && Represents(r) && id in registry
      modifies callerid`records, callerid`lost, callerid.users, callerid.records
      ensures Valid() && fresh(callerid.records - old(callerid.records))
      ensures Represents(After(r, Step.Accept(id, target, adding)))
      ensures reported <==> Reports(r, Step.Accept(id, target, adding))
    {
      hide Valid, People, Lists, Misses;
      SameListSize(r, id);
      MissesAreLists(id, target);
      reported := Accept(id, target, adding);
    }

    lemma MissesAny(id: nat)
      requires Valid() && id in registry
      ensures (exists b: nat :: Misses(id, b)) <==> exists v :: v in callerid.users && callerid.Lost(registry[id], v)
    {
      if v :| v in callerid.users && callerid.Lost(registry[id], v) {
        assert Misses(id, v.id);
      }
    }

    /** A lost entry is an entry. */
    lemma MissesAreLists(a: nat, b: nat)
      requires Valid()
      ensures Misses(a, b) ==> Lists(a, b)
    {
      if a in registry && b in registry {
        callerid.LostIffUnlinked(registry[a], registry[b]);
      }
    }

    method PerformDeserialise(id: nat, lastnotify: int, accepted: seq<nat>, ghost r: Relation) returns (reported: bool)
      requires Valid() && Represents(r) && id in registry
      modifies callerid`records, callerid`lost, callerid.users, callerid.records
      ensures Valid() && fresh(callerid.records - old(callerid.records))
      ensures Represents(After(r, Deserialise(id, lastnotify, accepted)))
      ensures reported <==> Reports(r, Deserialise(id, lastnotify, accepted))
    {
      hide Valid, People, Lists, Misses;
      PeopleAt(id);
      reported := Restore(id, lastnotify, accepted);
    }

    method PerformLeaving(step: Step, ghost r: Relation)
      requires Valid() && Represents(r) && (step.ChangeNick? || step.Quit?) && step.id in registry
      modifies callerid.users, callerid.records
      ensures Valid() && Represents(After(r, step))
    {
      hide Valid, People, Lists, Misses;
      var id := step.id;
      PeopleAt(id);
      if step.Quit? {
        Quit(id);
      } else if registry[id].connected && !registry[id].quitting {
        Rename(id);
      }
    }

    method PerformCull(id: nat, ghost r: Relation) returns (reported: bool)
      requires Valid() && Represents(r) && Safe(r, Step.Cull(id)) && id in registry
      modifies this`registry, callerid`users, callerid`records, callerid`lost, callerid.users, callerid.records
      ensures Valid() && callerid.users <= old(callerid.users) && callerid.records <= old(callerid.records)
      ensures Represents(After(r, Step.Cull(id)))
      ensures reported <==> Reports(r, Step.Cull(id))
    {
      hide Valid, People, Lists, Misses;
      PeopleAt(id);
      AcceptedAreRegistered(r, id);
      reported := false;
      if registry[id].quitting {
        reported := Leave(id);
      }
    }

    method Configure(maxaccepts: nat, tracknick: bool, notifyCooldown: int)
      requires Valid()
      modifies callerid`maxaccepts, callerid`tracknick, callerid`notifyCooldown
      ensures Valid() && People() == old(People())
      ensures callerid.maxaccepts == maxaccepts && callerid.tracknick == tracknick && callerid.notifyCooldown == notifyCooldown
      ensures forall a: nat, b: nat :: (Lists(a, b) <==> old(Lists(a, b))) && (Misses(a, b) <==> old(Misses(a, b)))
    {
      callerid.ReadConfig(maxaccepts, tracknick, notifyCooldown);
    }

    /** One step, which does to the relation what it does to the records. */
    method Perform(step: Step, ghost r: Relation) returns (reported: bool)
      requires Valid() && Represents(r) && Safe(r, step)
      modifies this`registry, callerid, callerid.users, callerid.records
      ensures Valid() && fresh(callerid.users - old(callerid.users)) && fresh(callerid.records - old(callerid.records))
      ensures Represents(After(r, step))
      ensures reported <==> Reports(r, step)
    {
      hide Valid, People, Lists, Misses;
      reported := false;
      if step.Configure? {
        Configure(step.maxaccepts, step.tracknick, step.notifyCooldown);
        return;
      }
      var id := step.id;
      PeopleAt(id);
      if id !in registry {
        if step.Connect? {
          Enter(id, step.isLocal);
        }
        return;
      }
      match step
      case Connect(_, _) =>
      case Register(_) => Welcome(id);
      case Accept(_, target, adding) => reported := PerformAccept(id, target, adding, r);
      case Message(_, target, hasMode, mayIgnore, now) => Tell(id, target, hasMode, mayIgnore, now);
      case ChangeNick(_) => PerformLeaving(step, r);
      case Quit(_) => PerformLeaving(step, r);
      case Cull(_) => reported := PerformCull(id, r);
      case Deserialise(_, lastnotify, accepted) => reported := PerformDeserialise(id, lastnotify, accepted, r);
    }

    /** Whoever quits is on no list but for lost entries. */
    lemma AcceptedAreRegistered(r: Relation, id: nat)
      requires Valid() && Represents(r) && id in registry
      ensures registry[id].quitting ==> forall a: nat :: Lists(a, id) ==> Misses(a, id)
    {
      if registry[id].quitting {
        callerid.QuittingUserIsUnlisted(registry[id]);
      }
    }

    function FindAll(ids: seq<nat>): (found: seq<User?>)
      reads this, registry.Values
      ensures forall i :: 0 <= i < |found| && found[i] != null ==> found[i] in registry.Values && found[i].connected
      ensures forall id :: id in registry && registry[id].connected && id in ids ==> registry[id] in found
      ensures forall u :: u in found && u != null ==> exists id :: id in ids && id in registry && registry[id] == u && u.connected
    {
      if ids == [] then [] else [Find(ids[0])] + FindAll(ids[1..])
    }

    /**
     Whatever happens, and in whatever order, the records stand for the plain relation, and an
     inconsistency is reported exactly when a step walks over a lost entry.
     */
    method Run(steps: seq<Step>, ghost r: Relation) returns (reported: bool)
      requires Valid() && Represents(r) && SafeRun(r, steps)
      modifies this`registry, callerid, callerid.users, callerid.records
      ensures Valid() && Represents(AfterAll(r, steps))
      ensures reported <==> exists n :: 0 <= n < |steps| && Reports(Before(r, steps, n), steps[n])
    {
      hide Valid, Represents, After, Reports, Safe;
      reported := false;
      for i := 0 to |steps|
        invariant Valid() && fresh(callerid.users - old(callerid.users)) && fresh(callerid.records - old(callerid.records))
        invariant Represents(Before(r, steps, i))
        invariant reported <==> exists n :: 0 <= n < i && Reports(Before(r, steps, n), steps[n])
      {
        BeforeNext(r, steps, i);
        var report := Perform(steps[i], Before(r, steps, i));
        reported := reported || report;
      }
      assert steps[..|steps|] == steps;
    }

    /** While no record is read back whose owner somebody else lists, nothing is ever lost or reported. */
    method RunUnlisted(steps: seq<Step>, ghost r: Relation)
      requires Valid() && Represents(r) && r.lost == {} && UnlistedRun(r, steps)
      modifies this`registry, callerid, callerid.users, callerid.records
      ensures Valid() && Represents(AfterAll(r, steps)) && callerid.lost == {}
    {
      hide After, Reports, Safe;
      UnlistedRunsAreQuiet(r, steps);
      NothingLostIff(r, steps);
      assert Before(r, steps, |steps|).lost == {};
      assert steps[..|steps|] == steps;
      var reported := Run(steps, r);
      assert !reported; // inconsistencies (2) and (4)
      NothingMissed(AfterAll(r, steps));
    }

    lemma NothingMissed(r: Relation)
      requires Valid() && Represents(r) && r.lost == {}
      ensures callerid.lost == {}
    {
      callerid.LostAreUsers();
      if p :| p in callerid.lost {
        assert Misses(p.0.id, p.1.id);
      }
    }
  }
}
