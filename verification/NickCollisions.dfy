/**
 Resolving nick collisions after a change of case mapping.

 When two nicks become equivalent, the user who took theirs first keeps it and the others fall
 back to their unique identifier; on a tie both lose it.  One pass over the users decides, with a
 map from nicks to the current holder.  The model proves what the pass decides, and when the
 decision does not depend on the order in which users are visited.
 */
module NickCollisions {
  import opened Collections

  /** The unique identifier of a user; it can also serve as a nick. */
  datatype Uuid = Uuid(text: string)
  {
    function AsNick(): Nick
    {
      Nick(text)
    }
  }

  datatype Nick = Nick(text: string)

  /** A case-folded nick: equivalent nicks have the same key. */
  datatype Key = Key(text: string)

  /** A claim to a nick: who makes it, the case-folded nick, and since when. */
  datatype Claim = Claim(user: Uuid, key: Key, since: int)

  /** Who holds a nick after one more claim to it. */
  ghost function Contest(holder: Option<Claim>, c: Claim): Option<Claim>
  {
    match holder
    case None => Some(c)
    case Some(h) => if h.since < c.since then Some(h) else if h.since > c.since then Some(c) else None
  }

  /** Who holds the nick `key` after claims in the given order. */
  ghost function Holder(claims: seq<Claim>, key: Key): Option<Claim>
  {
    if claims == [] then None
    else
      var before, last := Holder(claims[..|claims| - 1], key), claims[|claims| - 1];
      if last.key == key then Contest(before, last) else before
  }

  lemma HolderOneMore(claims: seq<Claim>, c: Claim, key: Key)
    ensures Holder(claims + [c], key) == if key == c.key then Contest(Holder(claims, key), c) else Holder(claims, key)
  {
    assert (claims + [c])[..|claims|] == claims;
  }

  lemma {:induction false} HolderIsClaim(claims: seq<Claim>, key: Key)
    ensures Holder(claims, key).Some? ==> Holder(claims, key).value in claims && Holder(claims, key).value.key == key
    decreases claims
  {
    if claims != [] {
      HolderIsClaim(claims[..|claims| - 1], key);
    }
  }

  // ----- when the order of visits does not matter

  /** A claim that is older than every other claim to the same nick. */
  ghost predicate StrictlyOldest(claims: multiset<Claim>, c: Claim)
  {
    claims[c] == 1 && forall d :: d in claims && d.key == c.key && d != c ==> c.since < d.since
  }

  /** Whatever claims come after it, a strictly oldest claim keeps the nick once made. */
  lemma {:induction false} OldestHolds(claims: seq<Claim>, c: Claim)
    requires StrictlyOldest(multiset(claims), c)
    ensures Holder(claims, c.key) == Some(c)
    decreases claims
  {
    var front, last := claims[..|claims| - 1], claims[|claims| - 1];
    assert claims == front + [last];
    HolderIsClaim(front, c.key);
    if last == c {
      assert c !in multiset(front);
      assert forall d :: d in front ==> d in multiset(claims);
    } else {
      assert multiset(front)[c] == 1;
      OldestHolds(front, c);
    }
  }

  function RemoveFirst(claims: seq<Claim>, c: Claim): seq<Claim>
  {
    if claims == [] then [] else if claims[0] == c then claims[1..] else [claims[0]] + RemoveFirst(claims[1..], c)
  }

  lemma {:induction false} RemoveFirstRemoves(claims: seq<Claim>, c: Claim)
    ensures multiset(RemoveFirst(claims, c)) == multiset(claims) - multiset{c}
    decreases claims
  {
    if claims != [] {
      assert claims == [claims[0]] + claims[1..];
      if claims[0] != c {
        RemoveFirstRemoves(claims[1..], c);
      }
    }
  }

  /** A claim that lost the nick never gets it back. */
  lemma {:induction false} LostStaysLost(claims: seq<Claim>, n: nat, c: Claim)
    requires n <= |claims| && Holder(claims[..n], c.key) != Some(c) && c !in claims[n..]
    ensures Holder(claims, c.key) != Some(c)
    decreases |claims| - n
  {
    if n == |claims| {
      assert claims[..n] == claims;
    } else {
      assert claims[..n + 1][..n] == claims[..n] && claims[n] in claims[n..];
      assert forall d :: d in claims[n + 1..] ==> d in claims[n..];
      LostStaysLost(claims, n + 1, c);
    }
  }

  lemma OlderRivalTakesOver(c: Claim, rival: Claim)
    requires rival != c && rival.key == c.key && rival.since <= c.since
    ensures Holder([c, rival], c.key) != Some(c)
  {
    assert [c, rival][..1] == [c] && [c][..0] == [];
    assert Holder([c], c.key) == Some(c);
  }

  lemma PutBack(claims: multiset<Claim>, c: Claim, rival: Claim)
    requires claims[c] == 1 && rival in claims && rival != c
    ensures multiset{c, rival} + (claims - multiset{c} - multiset{rival}) == claims
    ensures (claims - multiset{c} - multiset{rival})[c] == 0
  {
  }

  /** If another claim to the nick is at least as old, some order of visits takes the nick away. */
  lemma RivalOrder(claims: seq<Claim>, c: Claim, rival: Claim) returns (order: seq<Claim>)
    requires multiset(claims)[c] == 1 && rival in claims && rival != c && rival.key == c.key && rival.since <= c.since
    ensures multiset(order) == multiset(claims) && Holder(order, c.key) != Some(c)
  {
    hide Holder, RemoveFirst;
    var rest := RemoveFirst(RemoveFirst(claims, c), rival);
    RemoveFirstRemoves(claims, c);
    RemoveFirstRemoves(RemoveFirst(claims, c), rival);
    order := [c, rival] + rest;
    OlderRivalTakesOver(c, rival);
    PutBack(multiset(claims), c, rival);
    assert multiset(order) == multiset{c, rival} + multiset(rest);
    assert order[..2] == [c, rival] && order[2..] == rest;
    assert c !in multiset(rest);
    LostStaysLost(order, 2, c);
  }

  /** A claim wins in every order of visits if and only if it is strictly the oldest for its nick. */
  lemma WinsInEveryOrderIff(claims: seq<Claim>, c: Claim)
    requires multiset(claims)[c] == 1
    ensures (forall order: seq<Claim> :: multiset(order) == multiset(claims) ==> Holder(order, c.key) == Some(c))
            <==> StrictlyOldest(multiset(claims), c)
  {
    if StrictlyOldest(multiset(claims), c) {
      forall order: seq<Claim> | multiset(order) == multiset(claims)
        ensures Holder(order, c.key) == Some(c)
      {
        OldestHolds(order, c);
      }
    } else {
      var rival :| rival in multiset(claims) && rival.key == c.key && rival != c && rival.since <= c.since;
      var order := RivalOrder(claims, c, rival);
    }
  }

  // ----- when all orders of claims to a nick lead to the same outcome

  ghost predicate AllFor(claims: seq<Claim>, key: Key)
  {
    forall i :: 0 <= i < |claims| ==> claims[i].key == key
  }

  ghost predicate SameTime(claims: seq<Claim>)
  {
    forall i, j :: 0 <= i < |claims| && 0 <= j < |claims| ==> claims[i].since == claims[j].since
  }

  /** There is a strictly oldest claim, or all claims are equally old and even in number. */
  ghost predicate Settled(claims: seq<Claim>)
  {
    || (exists c :: c in claims && StrictlyOldest(multiset(claims), c))
    || (|claims| % 2 == 0 && SameTime(claims))
  }

  /** The claims with the given time, or the others. */
  function At(claims: seq<Claim>, t: int, same: bool): seq<Claim>
  {
    if claims == [] then []
    else
      var front, last := claims[..|claims| - 1], claims[|claims| - 1];
      At(front, t, same) + if (last.since == t) == same then [last] else []
  }

  lemma {:induction false} AtHas(claims: seq<Claim>, t: int, same: bool)
    ensures forall c :: c in At(claims, t, same) <==> c in claims && (c.since == t) == same
    decreases claims
  {
    if claims != [] {
      var front, last := claims[..|claims| - 1], claims[|claims| - 1];
      AtHas(front, t, same);
      assert forall c :: c in claims <==> c in front || c == last;
    }
  }

  lemma {:induction false} AtCounts(claims: seq<Claim>, t: int, same: bool, c: Claim)
    ensures multiset(At(claims, t, same))[c] == if (c.since == t) == same then multiset(claims)[c] else 0
    decreases claims
  {
    if claims != [] {
      var front, last := claims[..|claims| - 1], claims[|claims| - 1];
      AtCounts(front, t, same, c);
      assert claims == front + [last];
    }
  }

  lemma AtSplits(claims: seq<Claim>, t: int)
    ensures multiset(At(claims, t, false)) + multiset(At(claims, t, true)) == multiset(claims)
  {
    hide At;
    forall c: Claim | true
      ensures multiset(At(claims, t, false))[c] + multiset(At(claims, t, true))[c] == multiset(claims)[c]
    {
      AtCounts(claims, t, false, c);
      AtCounts(claims, t, true, c);
    }
  }

  lemma {:induction false} AtNoDuplicates(claims: seq<Claim>, t: int, same: bool)
    requires NoDuplicates(claims)
    ensures NoDuplicates(At(claims, t, same))
    decreases claims
  {
    if claims != [] {
      var front, last := claims[..|claims| - 1], claims[|claims| - 1];
      AtNoDuplicates(front, t, same);
      AtHas(front, t, same);
      assert last !in front;
    }
  }

  /** After younger claims, claims of equal age alternate between holding the nick and taking it from one another. */
  lemma {:induction false} EqualClaimsAlternate(younger: seq<Claim>, equal: seq<Claim>, key: Key, t: int)
    requires equal != [] && AllFor(equal, key) && forall i :: 0 <= i < |equal| ==> equal[i].since == t
    requires forall c :: c in younger ==> c.since > t
    ensures Holder(younger + equal, key) == if |equal| % 2 == 0 then None else Some(equal[|equal| - 1])
    decreases equal
  {
    var front, last := equal[..|equal| - 1], equal[|equal| - 1];
    assert younger + equal == (younger + front) + [last];
    HolderOneMore(younger + front, last, key);
    if front == [] {
      assert younger + front == younger;
      HolderIsClaim(younger, key);
    } else {
      EqualClaimsAlternate(younger, front, key, t);
    }
  }

  /** The time of the oldest claim. */
  lemma {:induction false} OldestTime(claims: seq<Claim>) returns (t: int)
    requires claims != []
    ensures (exists c :: c in claims && c.since == t) && forall c :: c in claims ==> t <= c.since
    decreases claims
  {
    var last := claims[|claims| - 1];
    t := last.since;
    if |claims| > 1 {
      var front := claims[..|claims| - 1];
      var before := OldestTime(front);
      assert forall c :: c in claims <==> c in front || c == last;
      t := if before < last.since then before else last.since;
    }
  }

  /** An odd number of oldest claims, more than one: whichever of them comes last holds the nick. */
  lemma OddOldestDiffer(younger: seq<Claim>, equal: seq<Claim>, key: Key, t: int) returns (other: seq<Claim>)
    requires |equal| % 2 == 1 && |equal| > 1 && NoDuplicates(equal) && AllFor(equal, key)
    requires (forall i :: 0 <= i < |equal| ==> equal[i].since == t) && forall c :: c in younger ==> c.since > t
    ensures multiset(other) == multiset(younger + equal) && Holder(other, key) != Holder(younger + equal, key)
  {
    var n := |equal| - 1;
    var rotated := [equal[n]] + equal[..n];
    other := younger + rotated;
    assert equal == equal[..n] + [equal[n]];
    assert multiset(rotated) == multiset(equal);
    EqualClaimsAlternate(younger, equal, key, t);
    EqualClaimsAlternate(younger, rotated, key, t);
    assert rotated[n] == equal[n - 1];
  }

  /** An even number of oldest claims and a younger one: the younger one holds the nick if and only if it comes after all of them. */
  lemma EvenOldestDiffer(younger: seq<Claim>, equal: seq<Claim>, key: Key, t: int) returns (other: seq<Claim>)
    requires |equal| % 2 == 0 && |equal| > 0 && younger != [] && AllFor(equal, key) && AllFor(younger, key)
    requires (forall i :: 0 <= i < |equal| ==> equal[i].since == t) && forall c :: c in younger ==> c.since > t
    ensures multiset(other) == multiset(younger + equal) && Holder(other, key) != Holder(younger + equal, key)
  {
    var n := |younger| - 1;
    var last := younger[n];
    other := younger[..n] + equal + [last];
    assert younger == younger[..n] + [last];
    EqualClaimsAlternate(younger, equal, key, t);
    EqualClaimsAlternate(younger[..n], equal, key, t);
    HolderOneMore(younger[..n] + equal, last, key);
  }

  /** Unless the claims are settled, two orders of them lead to different outcomes. */
  lemma UnsettledDiffer(claims: seq<Claim>, key: Key) returns (one: seq<Claim>, other: seq<Claim>)
    requires AllFor(claims, key) && NoDuplicates(claims) && !Settled(claims)
    ensures multiset(one) == multiset(claims) == multiset(other) && Holder(one, key) != Holder(other, key)
  {
    hide Holder, At;
    assert claims != [];
    var t := OldestTime(claims);
    var younger, equal := At(claims, t, false), At(claims, t, true);
    AtHas(claims, t, false);
    AtHas(claims, t, true);
    AtSplits(claims, t);
    AtNoDuplicates(claims, t, true);
    assert forall i :: 0 <= i < |equal| ==> equal[i] in equal;
    assert forall i :: 0 <= i < |younger| ==> younger[i] in younger;
    assert forall c :: c in claims ==> c.key == key;
    one := younger + equal;
    if |equal| % 2 == 1 {
      if |equal| == 1 {
        SingleOldest(claims, t);
      }
      other := OddOldestDiffer(younger, equal, key, t);
    } else {
      if younger == [] {
        AllOldest(claims, t);
      }
      other := EvenOldestDiffer(younger, equal, key, t);
    }
  }

  lemma SingleOldest(claims: seq<Claim>, t: int)
    requires NoDuplicates(claims) && (forall c :: c in claims ==> t <= c.since) && |At(claims, t, true)| == 1
    ensures Settled(claims)
  {
    AtHas(claims, t, true);
    var equal := At(claims, t, true);
    var c := equal[0];
    assert c in equal && forall d :: d in equal ==> d == c;
    OnceInSeq(claims, c);
    assert StrictlyOldest(multiset(claims), c);
  }

  lemma {:induction false} OnceInSeq(claims: seq<Claim>, c: Claim)
    requires NoDuplicates(claims)
    ensures multiset(claims)[c] == if c in claims then 1 else 0
    decreases claims
  {
    if claims != [] {
      var front, last := claims[..|claims| - 1], claims[|claims| - 1];
      OnceInSeq(front, c);
      assert claims == front + [last] && last !in front;
    }
  }

  lemma AllOldest(claims: seq<Claim>, t: int)
    requires At(claims, t, false) == [] && |At(claims, t, true)| % 2 == 0
    ensures Settled(claims)
  {
    AtHas(claims, t, false);
    AtSplits(claims, t);
    assert |multiset(claims)| == |claims| && |multiset(At(claims, t, true))| == |At(claims, t, true)|;
    assert forall i :: 0 <= i < |claims| ==> claims[i] in claims && claims[i] !in At(claims, t, false);
  }

  lemma TiedAgree(claims: seq<Claim>, key: Key)
    requires AllFor(claims, key) && |claims| % 2 == 0 && SameTime(claims)
    ensures Holder(claims, key) == None
  {
    if claims != [] {
      EqualClaimsAlternate([], claims, key, claims[0].since);
      assert [] + claims == claims;
    }
  }

  /** Another order of the claims has the same properties. */
  lemma Reordered(claims: seq<Claim>, order: seq<Claim>, key: Key)
    requires AllFor(claims, key) && multiset(order) == multiset(claims)
    ensures AllFor(order, key) && |order| == |claims| && (SameTime(claims) ==> SameTime(order))
  {
    assert |multiset(order)| == |order| && |multiset(claims)| == |claims|;
    assert forall i :: 0 <= i < |order| ==> order[i] in multiset(claims);
    assert forall c :: c in multiset(claims) ==> c in claims;
  }

  lemma SettledAgree(claims: seq<Claim>, order: seq<Claim>, key: Key)
    requires AllFor(claims, key) && Settled(claims) && multiset(order) == multiset(claims)
    ensures Holder(order, key) == Holder(claims, key)
  {
    hide Holder, SameTime, AllFor, StrictlyOldest;
    Reordered(claims, order, key);
    if c :| c in claims && StrictlyOldest(multiset(claims), c) {
      assert c.key == key by {
        KeyOf(claims, key, c);
      }
      OldestHolds(claims, c);
      OldestHolds(order, c);
    } else {
      TiedAgree(claims, key);
      TiedAgree(order, key);
    }
  }

  lemma KeyOf(claims: seq<Claim>, key: Key, c: Claim)
    requires AllFor(claims, key) && c in claims
    ensures c.key == key
  {
  }

  /**
   All orders of the claims of different users to a nick lead to the same outcome if and only if
   there is a strictly oldest claim, or all claims are equally old and even in number.
   */
  lemma OutcomeSettledIff(claims: seq<Claim>, key: Key)
    requires AllFor(claims, key) && NoDuplicates(claims)
    ensures (forall order: seq<Claim> :: multiset(order) == multiset(claims) ==> Holder(order, key) == Holder(claims, key))
            <==> Settled(claims)
  {
    if Settled(claims) {
      forall order: seq<Claim> | multiset(order) == multiset(claims)
        ensures Holder(order, key) == Holder(claims, key)
      {
        SettledAgree(claims, order, key);
      }
    } else {
      var one, other := UnsettledDiffer(claims, key);
    }
  }

  /** Two equally old claims and a younger one: the order decides whether the younger one gets the nick. */
  lemma TieDependsOnOrder(a: Uuid, b: Uuid, c: Uuid, key: Key)
    ensures Holder([Claim(a, key, 5), Claim(b, key, 5), Claim(c, key, 7)], key) == Some(Claim(c, key, 7))
    ensures Holder([Claim(a, key, 5), Claim(c, key, 7), Claim(b, key, 5)], key) == None
  {
    var x, y, z := Claim(a, key, 5), Claim(b, key, 5), Claim(c, key, 7);
    assert [x, y, z][..2] == [x, y] && [x, y][..1] == [x] && [x][..0] == [];
    assert [x, z, y][..2] == [x, z] && [x, z][..1] == [x];
    assert Holder([x], key) == Some(x);
    assert Holder([x, y], key) == None && Holder([x, z], key) == Some(x);
  }

  // ----- the pass over the users

  /** The claims of the users who have a nick other than their identifier, in the order of visits. */
  ghost function Claims(fold: Nick -> Key, nicks: map<Uuid, Nick>, since: map<Uuid, int>, order: seq<Uuid>): seq<Claim>
    requires forall u :: u in order ==> u in nicks && u in since
  {
    if order == [] then []
    else
      var front, last := order[..|order| - 1], order[|order| - 1];
      Claims(fold, nicks, since, front) + if nicks[last] == last.AsNick() then [] else [Claim(last, fold(nicks[last]), since[last])]
  }

  lemma ClaimsOneMore(fold: Nick -> Key, nicks: map<Uuid, Nick>, since: map<Uuid, int>, order: seq<Uuid>, i: nat)
    requires i < |order| && forall u :: u in order ==> u in nicks && u in since
    ensures Claims(fold, nicks, since, order[..i + 1]) ==
            Claims(fold, nicks, since, order[..i]) + if nicks[order[i]] == order[i].AsNick() then [] else [Claim(order[i], fold(nicks[order[i]]), since[order[i]])]
  {
    assert order[..i + 1][..i] == order[..i];
  }

  /** A user with a nick is entitled to it after the given claims. */
  ghost predicate Entitled(fold: Nick -> Key, nicks: map<Uuid, Nick>, since: map<Uuid, int>, claims: seq<Claim>, u: Uuid)
    requires u in nicks && u in since
  {
    nicks[u] != u.AsNick() && Holder(claims, fold(nicks[u])) == Some(Claim(u, fold(nicks[u]), since[u]))
  }

  /** No two users are entitled to equivalent nicks. */
  lemma EntitledAreDistinct(fold: Nick -> Key, nicks: map<Uuid, Nick>, since: map<Uuid, int>, claims: seq<Claim>, u: Uuid, v: Uuid)
    requires u in nicks && u in since && v in nicks && v in since
    requires Entitled(fold, nicks, since, claims, u) && Entitled(fold, nicks, since, claims, v) && fold(nicks[u]) == fold(nicks[v])
    ensures u == v
  {
  }

  /** What the map of holders says after some visits, in terms of the nicks and times at the start. */
  ghost predicate Tracks(fold: Nick -> Key, nicks: map<Uuid, Nick>, since: map<Uuid, int>, claims: seq<Claim>,
                         duplicates: map<Key, Uuid>)
  {
    && (forall k :: k in duplicates ==>
          duplicates[k] in nicks && duplicates[k] in since && nicks[duplicates[k]] != duplicates[k].AsNick() && fold(nicks[duplicates[k]]) == k)
    && (forall k :: Holder(claims, k) ==
          if k in duplicates && duplicates[k] in since then Some(Claim(duplicates[k], k, since[duplicates[k]])) else None)
  }

  /** The map of holders after a contest. */
  ghost function AfterContest(since: map<Uuid, int>, duplicates: map<Key, Uuid>, user: Uuid, key: Key): map<Key, Uuid>
    requires user in since
  {
    var h := if key in duplicates && duplicates[key] in since then Some(Claim(duplicates[key], key, since[duplicates[key]])) else None;
    match Contest(h, Claim(user, key, since[user]))
    case None => duplicates - {key}
    case Some(w) => duplicates[key := w.user]
  }

  lemma TracksOneMore(fold: Nick -> Key, nicks: map<Uuid, Nick>, since: map<Uuid, int>, claims: seq<Claim>,
                      duplicates: map<Key, Uuid>, user: Uuid)
    requires Tracks(fold, nicks, since, claims, duplicates) && user in nicks && user in since && nicks[user] != user.AsNick()
    ensures var key := fold(nicks[user]);
            Tracks(fold, nicks, since, claims + [Claim(user, key, since[user])], AfterContest(since, duplicates, user, key))
  {
    hide Holder;
    var key := fold(nicks[user]);
    forall k | true
      ensures Holder(claims + [Claim(user, key, since[user])], k) ==
              if k == key then Contest(Holder(claims, k), Claim(user, key, since[user])) else Holder(claims, k)
    {
      HolderOneMore(claims, Claim(user, key, since[user]), k);
    }
  }

  /** The user is the current holder of the nick it had at the start. */
  ghost predicate Holds(fold: Nick -> Key, nicks: map<Uuid, Nick>, duplicates: map<Key, Uuid>, u: Uuid)
  {
    u in nicks && fold(nicks[u]) in duplicates && duplicates[fold(nicks[u])] == u
  }

  lemma HoldsIffEntitled(fold: Nick -> Key, nicks: map<Uuid, Nick>, since: map<Uuid, int>, claims: seq<Claim>,
                         duplicates: map<Key, Uuid>, u: Uuid)
    requires Tracks(fold, nicks, since, claims, duplicates) && u in nicks && u in since
    ensures Holds(fold, nicks, duplicates, u) <==> Entitled(fold, nicks, since, claims, u)
  {
  }

  /** Nicks and times in the middle of the pass, with the current holder of each nick seen so far. */
  datatype Pass = Pass(nicks: map<Uuid, Nick>, since: map<Uuid, int>, duplicates: map<Key, Uuid>)

  function TakeNick(p: Pass, u: Uuid, now: int): Pass
  {
    p.(nicks := p.nicks[u := u.AsNick()], since := p.since[u := now])
  }

  /** One visit. */
  function Visit(fold: Nick -> Key, p: Pass, user: Uuid, now: int): Pass
    requires user in p.nicks && user in p.since && forall k :: k in p.duplicates ==> p.duplicates[k] in p.since
  {
    var key := fold(p.nicks[user]);
    if p.nicks[user] == user.AsNick() then p
    else if key !in p.duplicates then p.(duplicates := p.duplicates[key := user])
    else
      var otheruser := p.duplicates[key];
      if p.since[otheruser] < p.since[user] then TakeNick(p, user, now)
      else if p.since[otheruser] > p.since[user] then TakeNick(p, otheruser, now).(duplicates := p.duplicates[key := user])
      else TakeNick(TakeNick(p, user, now), otheruser, now).(duplicates := p.duplicates - {key})
  }

  /** A user who was not visited, holds their nick or had none is as at the start; the others have lost it just now. */
  ghost predicate AsExpected(fold: Nick -> Key, nicks: map<Uuid, Nick>, since: map<Uuid, int>, visited: set<Uuid>, p: Pass, now: int, u: Uuid)
    requires u in nicks && u in since
  {
    && u in p.nicks && u in p.since
    && if u in visited && !Holds(fold, nicks, p.duplicates, u) && nicks[u] != u.AsNick() then p.nicks[u] == u.AsNick() && p.since[u] == now
       else p.nicks[u] == nicks[u] && p.since[u] == since[u]
  }

  ghost predicate Progress(fold: Nick -> Key, nicks: map<Uuid, Nick>, since: map<Uuid, int>, claims: seq<Claim>, visited: set<Uuid>, p: Pass, now: int)
    requires nicks.Keys == since.Keys
  {
    && Tracks(fold, nicks, since, claims, p.duplicates)
    && p.nicks.Keys == nicks.Keys && p.since.Keys == since.Keys
    && (forall k :: k in p.duplicates ==> p.duplicates[k] in visited)
    && (forall u :: u in nicks ==> AsExpected(fold, nicks, since, visited, p, now, u))
  }

  lemma VisitMap(fold: Nick -> Key, nicks: map<Uuid, Nick>, since: map<Uuid, int>, claims: seq<Claim>, visited: set<Uuid>,
                 p: Pass, user: Uuid, now: int)
    requires nicks.Keys == since.Keys && Progress(fold, nicks, since, claims, visited, p, now) && user in nicks && user !in visited
    ensures forall k :: k in p.duplicates ==> p.duplicates[k] in p.since
    ensures p.nicks[user] == nicks[user] && p.since[user] == since[user]
    ensures nicks[user] != user.AsNick() ==> Visit(fold, p, user, now).duplicates == AfterContest(since, p.duplicates, user, fold(nicks[user]))
  {
    hide Holder;
    assert AsExpected(fold, nicks, since, visited, p, now, user);
    var key := fold(nicks[user]);
    if key in p.duplicates {
      assert AsExpected(fold, nicks, since, visited, p, now, p.duplicates[key]);
    }
  }

  lemma TrackedHold(fold: Nick -> Key, nicks: map<Uuid, Nick>, since: map<Uuid, int>, claims: seq<Claim>, duplicates: map<Key, Uuid>)
    requires Tracks(fold, nicks, since, claims, duplicates)
    ensures forall k :: k in duplicates ==> duplicates[k] in nicks && fold(nicks[duplicates[k]]) == k && nicks[duplicates[k]] != duplicates[k].AsNick()
  {
  }

  /** A user who neither makes the claim nor holds the nick is not concerned by a visit. */
  lemma VisitBystander(fold: Nick -> Key, nicks: map<Uuid, Nick>, p: Pass, user: Uuid, now: int, u: Uuid)
    requires user in p.nicks && user in p.since && (forall k :: k in p.duplicates ==> p.duplicates[k] in p.since)
    requires u in p.nicks && u in p.since && u != user
    requires p.nicks[user] != user.AsNick() ==> var key := fold(p.nicks[user]); !(key in p.duplicates && p.duplicates[key] == u)
    ensures var p' := Visit(fold, p, user, now);
            && u in p'.nicks && u in p'.since && p'.nicks[u] == p.nicks[u] && p'.since[u] == p.since[u]
            && (Holds(fold, nicks, p'.duplicates, u) <==> Holds(fold, nicks, p.duplicates, u))
  {
  }

  /** The user who makes the claim, and the one who holds the nick, if any. */
  lemma VisitInvolved(fold: Nick -> Key, nicks: map<Uuid, Nick>, since: map<Uuid, int>, visited: set<Uuid>, p: Pass, user: Uuid, now: int, u: Uuid)
    requires user in nicks && user in since && user !in visited && u in nicks && u in since
    requires AsExpected(fold, nicks, since, visited, p, now, user) && AsExpected(fold, nicks, since, visited, p, now, u)
    requires forall k :: k in p.duplicates ==> p.duplicates[k] in p.since && p.duplicates[k] in visited
    requires var key := fold(nicks[user]); u == user || (key in p.duplicates && p.duplicates[key] == u && fold(nicks[u]) == key)
    requires Holds(fold, nicks, p.duplicates, u) ==> nicks[u] != u.AsNick()
    ensures AsExpected(fold, nicks, since, visited + {user}, Visit(fold, p, user, now), now, u)
  {
    if u == user && nicks[user] == user.AsNick() {
      assert Visit(fold, p, user, now) == p;
    }
  }

  lemma VisitUser(fold: Nick -> Key, nicks: map<Uuid, Nick>, since: map<Uuid, int>, claims: seq<Claim>, visited: set<Uuid>,
                  p: Pass, user: Uuid, now: int, u: Uuid)
    requires nicks.Keys == since.Keys && Progress(fold, nicks, since, claims, visited, p, now) && user in nicks && user !in visited && u in nicks
    requires forall k :: k in p.duplicates ==> p.duplicates[k] in p.since
    ensures AsExpected(fold, nicks, since, visited + {user}, Visit(fold, p, user, now), now, u)
  {
    TrackedHold(fold, nicks, since, claims, p.duplicates);
    assert AsExpected(fold, nicks, since, visited, p, now, u) && AsExpected(fold, nicks, since, visited, p, now, user);
    hide Tracks, Visit;
    var key := fold(nicks[user]);
    if u == user || (nicks[user] != user.AsNick() && key in p.duplicates && p.duplicates[key] == u) {
      VisitInvolved(fold, nicks, since, visited, p, user, now, u);
    } else {
      VisitBystander(fold, nicks, p, user, now, u);
    }
  }

  /** A visit makes the visited user's claim, if it has one, and keeps everyone as expected. */
  lemma VisitKeeps(fold: Nick -> Key, nicks: map<Uuid, Nick>, since: map<Uuid, int>, claims: seq<Claim>, visited: set<Uuid>,
                   p: Pass, user: Uuid, now: int)
    requires nicks.Keys == since.Keys && Progress(fold, nicks, since, claims, visited, p, now) && user in nicks && user !in visited
    ensures forall k :: k in p.duplicates ==> p.duplicates[k] in p.since
    ensures Progress(fold, nicks, since, claims + if nicks[user] == user.AsNick() then [] else [Claim(user, fold(nicks[user]), since[user])],
                     visited + {user}, Visit(fold, p, user, now), now)
  {
    hide Tracks, AsExpected;
    VisitMap(fold, nicks, since, claims, visited, p, user, now);
    var p' := Visit(fold, p, user, now);
    forall u | u in nicks
      ensures AsExpected(fold, nicks, since, visited + {user}, p', now, u)
    {
      VisitUser(fold, nicks, since, claims, visited, p, user, now, u);
    }
    if nicks[user] != user.AsNick() {
      TracksOneMore(fold, nicks, since, claims, p.duplicates, user);
    } else {
      assert claims + [] == claims;
    }
  }

  /** The state of the local users: their nicks and since when they have them. */
  class LocalUsers {
    var nicks: map<Uuid, Nick>
    var since: map<Uuid, int>

    constructor (nicks: map<Uuid, Nick>, since: map<Uuid, int>)
      ensures this.nicks == nicks && this.since == since
    {
      this.nicks, this.since := nicks, since;
    }

    /** Takes the nick of a user away. */
    method ChangeNick(u: Uuid, now: int)
      modifies this
      ensures nicks == old(nicks)[u := u.AsNick()] && since == old(since)[u := now]
    {
      nicks, since := nicks[u := u.AsNick()], since[u := now];
    }

    method VisitOne(fold: Nick -> Key, user: Uuid, now: int, duplicates: map<Key, Uuid>) returns (after: map<Key, Uuid>)
      requires user in nicks && user in since && forall k :: k in duplicates ==> duplicates[k] in since
      modifies this
      ensures Pass(nicks, since, after) == Visit(fold, Pass(old(nicks), old(since), duplicates), user, now)
    {
      after := duplicates;
      if nicks[user] == user.AsNick() {
        return;
      }
      var key := fold(nicks[user]);
      if key !in duplicates {
        after := duplicates[key := user];
        return;
      }
      var otheruser := duplicates[key];
      if since[otheruser] < since[user] {
        ChangeNick(user, now);
      } else if since[otheruser] > since[user] {
        ChangeNick(otheruser, now);
        after := duplicates[key := user];
      } else {
        ChangeNick(user, now);
        ChangeNick(otheruser, now);
        after := duplicates - {key};
      }
    }

    /** Visits every user once; afterwards exactly the users entitled to their nick still have it. */
    method CheckDuplicateNick(fold: Nick -> Key, order: seq<Uuid>, now: int)
      requires nicks.Keys == since.Keys && Visits(order, nicks)
      modifies this
      ensures nicks.Keys == since.Keys == old(nicks).Keys
      ensures forall u :: u in nicks ==> since[u] == if nicks[u] == old(nicks)[u] then old(since)[u] else now
      ensures forall u :: u in nicks ==>
                nicks[u] == FinalNick(fold, old(nicks), old(since), order, u)
      ensures forall u, v :: u in nicks && v in nicks && u != v && nicks[u] != u.AsNick() && nicks[v] != v.AsNick() ==>
                fold(nicks[u]) != fold(nicks[v])
    {
      hide Tracks, AsExpected, Claims, Entitled, Visit;
      ghost var nicks0, since0 := nicks, since;
      ghost var claims := Claims(fold, nicks0, since0, order[..0]);
      ghost var visited: set<Uuid> := {};
      var duplicates: map<Key, Uuid> := map[];
      StartOfPass(fold, nicks0, since0, order, now);
      for i := 0 to |order|
        invariant visited == set u | u in order[..i]
        invariant claims == Claims(fold, nicks0, since0, order[..i])
        invariant Progress(fold, nicks0, since0, claims, visited, Pass(nicks, since, duplicates), now)
      {
        ClaimsOneMore(fold, nicks0, since0, order, i);
        VisitKeeps(fold, nicks0, since0, claims, visited, Pass(nicks, since, duplicates), order[i], now);
        duplicates := VisitOne(fold, order[i], now, duplicates);
        claims, visited := Claims(fold, nicks0, since0, order[..i + 1]), visited + {order[i]};
      }
      assert order[..|order|] == order;
      forall u | u in nicks
        ensures nicks[u] == if Entitled(fold, nicks0, since0, claims, u) then nicks0[u] else u.AsNick()
        ensures since[u] == if nicks[u] == nicks0[u] then since0[u] else now
      {
        EndOfPass(fold, nicks0, since0, claims, visited, Pass(nicks, since, duplicates), now, u);
      }
      forall u, v | u in nicks && v in nicks && nicks[u] != u.AsNick() && nicks[v] != v.AsNick() && fold(nicks[u]) == fold(nicks[v])
        ensures u == v
      {
        EntitledAreDistinct(fold, nicks0, since0, claims, u, v);
      }
    }
  }

  lemma StartOfPass(fold: Nick -> Key, nicks: map<Uuid, Nick>, since: map<Uuid, int>, order: seq<Uuid>, now: int)
    requires nicks.Keys == since.Keys
    ensures Claims(fold, nicks, since, order[..0]) == []
    ensures Progress(fold, nicks, since, [], {}, Pass(nicks, since, map[]), now)
  {
  }

  lemma EndOfPass(fold: Nick -> Key, nicks: map<Uuid, Nick>, since: map<Uuid, int>, claims: seq<Claim>, visited: set<Uuid>, p: Pass, now: int, u: Uuid)
    requires nicks.Keys == since.Keys && Progress(fold, nicks, since, claims, visited, p, now) && u in visited && u in nicks
    ensures p.nicks[u] == if Entitled(fold, nicks, since, claims, u) then nicks[u] else u.AsNick()
    ensures p.since[u] == if p.nicks[u] == nicks[u] then since[u] else now
  {
    HoldsIffEntitled(fold, nicks, since, claims, p.duplicates, u);
    assert AsExpected(fold, nicks, since, visited, p, now, u);
  }

  lemma {:induction false} ClaimsOf(fold: Nick -> Key, nicks: map<Uuid, Nick>, since: map<Uuid, int>, order: seq<Uuid>, c: Claim)
    requires forall u :: u in order ==> u in nicks && u in since
    requires forall i, j :: 0 <= i < j < |order| ==> order[i] != order[j]
    ensures multiset(Claims(fold, nicks, since, order))[c] ==
            if c.user in order && nicks[c.user] != c.user.AsNick() && c == Claim(c.user, fold(nicks[c.user]), since[c.user]) then 1 else 0
    decreases order
  {
    if order != [] {
      var front, last := order[..|order| - 1], order[|order| - 1];
      assert forall u :: u in order <==> u in front || u == last;
      assert last !in front;
      ClaimsOf(fold, nicks, since, front, c);
    }
  }

  /** In whatever order users are visited, one who took a nick strictly before all others with an equivalent one keeps it, alone. */
  lemma OldestKeepsNick(fold: Nick -> Key, nicks: map<Uuid, Nick>, since: map<Uuid, int>, order: seq<Uuid>, u: Uuid)
    requires forall v :: v in order ==> v in nicks && v in since
    requires forall i, j :: 0 <= i < j < |order| ==> order[i] != order[j]
    requires u in order && nicks[u] != u.AsNick()
    requires forall v :: v in order && v != u && nicks[v] != v.AsNick() && fold(nicks[v]) == fold(nicks[u]) ==> since[u] < since[v]
    ensures Entitled(fold, nicks, since, Claims(fold, nicks, since, order), u)
    ensures forall v :: v in order && v != u && fold(nicks[v]) == fold(nicks[u]) ==>
              !Entitled(fold, nicks, since, Claims(fold, nicks, since, order), v)
  {
    hide Holder, Claims;
    var claims, c := Claims(fold, nicks, since, order), Claim(u, fold(nicks[u]), since[u]);
    ClaimsOf(fold, nicks, since, order, c);
    forall d: Claim | d in multiset(claims) && d.key == c.key && d != c
      ensures c.since < d.since
    {
      ClaimsOf(fold, nicks, since, order, d);
    }
    OldestHolds(claims, c);
  }

  // ----- when all orders of visits lead to the same outcome

  /** Every user is visited, and visited once. */
  ghost predicate Visits(order: seq<Uuid>, nicks: map<Uuid, Nick>)
  {
    NoDuplicates(order) && forall u :: u in order <==> u in nicks
  }

  /** The users who contest a nick. */
  ghost function Contenders(fold: Nick -> Key, nicks: map<Uuid, Nick>, key: Key): set<Uuid>
  {
    set u | u in nicks && nicks[u] != u.AsNick() && fold(nicks[u]) == key
  }

  /** A user who has their nick longer than every other contender. */
  ghost predicate OldestUser(contenders: set<Uuid>, since: map<Uuid, int>, u: Uuid)
    requires contenders <= since.Keys && u in contenders
  {
    forall v :: v in contenders && v != u ==> since[u] < since[v]
  }

  ghost predicate EquallyOld(contenders: set<Uuid>, since: map<Uuid, int>)
    requires contenders <= since.Keys
  {
    forall u, v :: u in contenders && v in contenders ==> since[u] == since[v]
  }

  /** One contender is strictly the oldest, or all are equally old and even in number. */
  ghost predicate SettledNick(fold: Nick -> Key, nicks: map<Uuid, Nick>, since: map<Uuid, int>, key: Key)
    requires nicks.Keys == since.Keys
  {
    var contenders := Contenders(fold, nicks, key);
    (exists u :: u in contenders && OldestUser(contenders, since, u)) || (|contenders| % 2 == 0 && EquallyOld(contenders, since))
  }

  /** The claims to a nick. */
  function Only(claims: seq<Claim>, key: Key): (r: seq<Claim>)
    ensures AllFor(r, key) && forall c :: c in r <==> c in claims && c.key == key
  {
    if claims == [] then []
    else
      var front, last := claims[..|claims| - 1], claims[|claims| - 1];
      assert forall c :: c in claims <==> c in front || c == last;
      Only(front, key) + if last.key == key then [last] else []
  }

  lemma {:induction false} HolderOnly(claims: seq<Claim>, key: Key)
    ensures Holder(Only(claims, key), key) == Holder(claims, key)
    decreases claims
  {
    if claims != [] {
      var front, last := claims[..|claims| - 1], claims[|claims| - 1];
      HolderOnly(front, key);
      HolderOneMore(Only(front, key), last, key);
      assert Only(front, key) + [] == Only(front, key);
    }
  }

  lemma {:induction false} OnlyCounts(claims: seq<Claim>, key: Key, c: Claim)
    ensures multiset(Only(claims, key))[c] == if c.key == key then multiset(claims)[c] else 0
    decreases claims
  {
    if claims != [] {
      var front, last := claims[..|claims| - 1], claims[|claims| - 1];
      OnlyCounts(front, key, c);
      assert claims == front + [last];
    }
  }

  /** The claim that a user makes, in a visit order. */
  ghost predicate ClaimsAre(fold: Nick -> Key, nicks: map<Uuid, Nick>, since: map<Uuid, int>, key: Key, claims: seq<Claim>)
    requires nicks.Keys == since.Keys
  {
    && AllFor(claims, key) && NoDuplicates(claims)
    && (forall c :: c in claims <==> c.user in Contenders(fold, nicks, key) && c == Claim(c.user, key, since[c.user]))
  }

  lemma ClaimsOfVisits(fold: Nick -> Key, nicks: map<Uuid, Nick>, since: map<Uuid, int>, key: Key, order: seq<Uuid>)
    requires nicks.Keys == since.Keys && Visits(order, nicks)
    ensures ClaimsAre(fold, nicks, since, key, Only(Claims(fold, nicks, since, order), key))
  {
    hide Claims, Only;
    var claims := Claims(fold, nicks, since, order);
    forall c: Claim | true
      ensures multiset(Only(claims, key))[c] ==
              if c.user in Contenders(fold, nicks, key) && c == Claim(c.user, key, since[c.user]) then 1 else 0
    {
      ClaimsOf(fold, nicks, since, order, c);
      OnlyCounts(claims, key, c);
    }
    AtMostOnce(Only(claims, key));
    assert forall c :: c in Only(claims, key) <==> multiset(Only(claims, key))[c] > 0;
  }

  lemma {:induction false} AtMostOnce(claims: seq<Claim>)
    requires forall c :: multiset(claims)[c] <= 1
    ensures NoDuplicates(claims)
    decreases claims
  {
    if claims != [] {
      var front, last := claims[..|claims| - 1], claims[|claims| - 1];
      assert claims == front + [last];
      assert forall c :: multiset(front)[c] <= multiset(claims)[c];
      AtMostOnce(front);
      assert last !in multiset(front);
    }
  }

  lemma {:induction false} CountContenders(claims: seq<Claim>, users: set<Uuid>)
    requires NoDuplicates(claims) && (forall c, d :: c in claims && d in claims && c.user == d.user ==> c == d)
    requires forall u :: u in users <==> exists c :: c in claims && c.user == u
    ensures |claims| == |users|
    decreases claims
  {
    if claims != [] {
      var front, last := claims[..|claims| - 1], claims[|claims| - 1];
      assert forall c :: c in claims <==> c in front || c == last;
      assert last !in front;
      CountContenders(front, users - {last.user});
    } else {
      assert users == {};
    }
  }

  lemma OldestClaimIff(fold: Nick -> Key, nicks: map<Uuid, Nick>, since: map<Uuid, int>, key: Key, claims: seq<Claim>, u: Uuid)
    requires nicks.Keys == since.Keys && ClaimsAre(fold, nicks, since, key, claims) && u in Contenders(fold, nicks, key)
    ensures Claim(u, key, since[u]) in claims
    ensures StrictlyOldest(multiset(claims), Claim(u, key, since[u])) <==> OldestUser(Contenders(fold, nicks, key), since, u)
  {
    var contenders, c := Contenders(fold, nicks, key), Claim(u, key, since[u]);
    assert c.user == u;
    OnceInSeq(claims, c);
    if StrictlyOldest(multiset(claims), c) {
      forall v | v in contenders && v != u
        ensures since[u] < since[v]
      {
        assert Claim(v, key, since[v]).user == v;
        assert Claim(v, key, since[v]) in multiset(claims);
      }
    }
  }

  lemma SameTimeIff(fold: Nick -> Key, nicks: map<Uuid, Nick>, since: map<Uuid, int>, key: Key, claims: seq<Claim>)
    requires nicks.Keys == since.Keys && ClaimsAre(fold, nicks, since, key, claims)
    ensures Contenders(fold, nicks, key) <= since.Keys
    ensures SameTime(claims) <==> EquallyOld(Contenders(fold, nicks, key), since)
  {
    assert Contenders(fold, nicks, key) <= since.Keys;
    assert forall i :: 0 <= i < |claims| ==> claims[i] in claims;
    if SameTime(claims) {
      forall u, v | u in Contenders(fold, nicks, key) && v in Contenders(fold, nicks, key)
        ensures u in since && v in since && since[u] == since[v]
      {
        ContenderClaims(fold, nicks, since, key, claims, u);
        ContenderClaims(fold, nicks, since, key, claims, v);
        var i :| 0 <= i < |claims| && claims[i] == Claim(u, key, since[u]);
        var j :| 0 <= j < |claims| && claims[j] == Claim(v, key, since[v]);
      }
    }
  }

  lemma ContenderClaims(fold: Nick -> Key, nicks: map<Uuid, Nick>, since: map<Uuid, int>, key: Key, claims: seq<Claim>, u: Uuid)
    requires nicks.Keys == since.Keys && ClaimsAre(fold, nicks, since, key, claims) && u in Contenders(fold, nicks, key)
    ensures u in since && Claim(u, key, since[u]) in claims
  {
    assert Claim(u, key, since[u]).user == u;
  }

  lemma AsManyContenders(fold: Nick -> Key, nicks: map<Uuid, Nick>, since: map<Uuid, int>, key: Key, claims: seq<Claim>)
    requires nicks.Keys == since.Keys && ClaimsAre(fold, nicks, since, key, claims)
    ensures |claims| == |Contenders(fold, nicks, key)|
  {
    hide Contenders;
    forall u | u in Contenders(fold, nicks, key)
      ensures exists c :: c in claims && c.user == u
    {
      ContenderClaims(fold, nicks, since, key, claims, u);
    }
    CountContenders(claims, Contenders(fold, nicks, key));
  }

  /** The condition on users is that on their claims. */
  lemma SettledNickIff(fold: Nick -> Key, nicks: map<Uuid, Nick>, since: map<Uuid, int>, key: Key, claims: seq<Claim>)
    requires nicks.Keys == since.Keys && ClaimsAre(fold, nicks, since, key, claims)
    ensures Settled(claims) <==> SettledNick(fold, nicks, since, key)
  {
    hide StrictlyOldest, SameTime, OldestUser, EquallyOld, Contenders;
    AsManyContenders(fold, nicks, since, key, claims);
    SameTimeIff(fold, nicks, since, key, claims);
    var contenders := Contenders(fold, nicks, key);
    if u :| u in contenders && OldestUser(contenders, since, u) {
      OldestClaimIff(fold, nicks, since, key, claims, u);
    }
    if c :| c in claims && StrictlyOldest(multiset(claims), c) {
      OldestClaimIff(fold, nicks, since, key, claims, c.user);
    }
  }

  // ----- from orders of claims to orders of visits

  function Claimants(claims: seq<Claim>): (users: seq<Uuid>)
    ensures |users| == |claims| && forall i :: 0 <= i < |claims| ==> users[i] == claims[i].user
  {
    seq(|claims|, i requires 0 <= i < |claims| => claims[i].user)
  }

  /** The users who do not contest the nick. */
  function Rest(order: seq<Uuid>, contenders: set<Uuid>): (r: seq<Uuid>)
    ensures forall u :: u in r <==> u in order && u !in contenders
  {
    if order == [] then []
    else
      var front, last := order[..|order| - 1], order[|order| - 1];
      assert forall u :: u in order <==> u in front || u == last;
      Rest(front, contenders) + if last in contenders then [] else [last]
  }

  lemma {:induction false} RestNoDuplicates(order: seq<Uuid>, contenders: set<Uuid>)
    requires NoDuplicates(order)
    ensures NoDuplicates(Rest(order, contenders))
    decreases order
  {
    if order != [] {
      RestNoDuplicates(order[..|order| - 1], contenders);
      assert order[|order| - 1] !in order[..|order| - 1];
    }
  }

  lemma {:induction false} ClaimsAppend(fold: Nick -> Key, nicks: map<Uuid, Nick>, since: map<Uuid, int>, front: seq<Uuid>, back: seq<Uuid>)
    requires forall u :: u in front + back ==> u in nicks && u in since
    ensures (forall u :: u in front ==> u in nicks && u in since) && (forall u :: u in back ==> u in nicks && u in since)
    ensures Claims(fold, nicks, since, front + back) == Claims(fold, nicks, since, front) + Claims(fold, nicks, since, back)
    decreases back
  {
    assert forall u :: u in front ==> u in front + back;
    assert forall u :: u in back ==> u in front + back;
    if back == [] {
      assert front + back == front;
    } else {
      var n := |back| - 1;
      assert (front + back)[..|front + back| - 1] == front + back[..n];
      ClaimsAppend(fold, nicks, since, front, back[..n]);
    }
  }

  lemma {:induction false} ClaimsOfClaimants(fold: Nick -> Key, nicks: map<Uuid, Nick>, since: map<Uuid, int>, key: Key, claims: seq<Claim>)
    requires nicks.Keys == since.Keys
    requires forall c :: c in claims ==> c.user in Contenders(fold, nicks, key) && c == Claim(c.user, key, since[c.user])
    ensures forall u :: u in Claimants(claims) ==> u in nicks && u in since
    ensures Claims(fold, nicks, since, Claimants(claims)) == claims
    decreases claims
  {
    assert forall i :: 0 <= i < |claims| ==> claims[i] in claims;
    if claims != [] {
      var front, last := claims[..|claims| - 1], claims[|claims| - 1];
      ClaimsOfClaimants(fold, nicks, since, key, front);
      assert Claimants(claims)[..|claims| - 1] == Claimants(front);
      assert last in claims;
    }
  }

  lemma {:induction false} HolderIgnores(claims: seq<Claim>, others: seq<Claim>, key: Key)
    requires forall c :: c in others ==> c.key != key
    ensures Holder(claims + others, key) == Holder(claims, key)
    decreases others
  {
    if others == [] {
      assert claims + others == claims;
    } else {
      var n := |others| - 1;
      HolderIgnores(claims, others[..n], key);
      assert claims + others == (claims + others[..n]) + [others[n]];
      HolderOneMore(claims + others[..n], others[n], key);
    }
  }

  /** Every order of the claims to a nick comes from some order of visits. */
  lemma VisitOrderFor(fold: Nick -> Key, nicks: map<Uuid, Nick>, since: map<Uuid, int>, key: Key, visits: seq<Uuid>, claims: seq<Claim>)
    returns (order: seq<Uuid>)
    requires nicks.Keys == since.Keys && Visits(visits, nicks) && ClaimsAre(fold, nicks, since, key, claims)
    ensures Visits(order, nicks) && Holder(Claims(fold, nicks, since, order), key) == Holder(claims, key)
  {
    hide Holder, Claims, Rest;
    var contenders := Contenders(fold, nicks, key);
    var users, rest := Claimants(claims), Rest(visits, contenders);
    order := users + rest;
    ClaimantsAre(fold, nicks, since, key, claims);
    RestNoDuplicates(visits, contenders);
    assert forall u :: u in order <==> u in users || u in rest;
    ClaimsOfClaimants(fold, nicks, since, key, claims);
    ClaimsAppend(fold, nicks, since, users, rest);
    var others := Claims(fold, nicks, since, rest);
    forall c | c in others
      ensures c.key != key
    {
      assert multiset(others)[c] > 0;
      ClaimsOf(fold, nicks, since, rest, c);
    }
    HolderIgnores(claims, others, key);
  }

  lemma ClaimantsAre(fold: Nick -> Key, nicks: map<Uuid, Nick>, since: map<Uuid, int>, key: Key, claims: seq<Claim>)
    requires nicks.Keys == since.Keys && ClaimsAre(fold, nicks, since, key, claims)
    ensures NoDuplicates(Claimants(claims)) && forall u :: u in Claimants(claims) <==> u in Contenders(fold, nicks, key)
  {
    hide Contenders;
    assert forall i :: 0 <= i < |claims| ==> claims[i] in claims;
    forall u | u in Contenders(fold, nicks, key)
      ensures u in Claimants(claims)
    {
      ContenderClaims(fold, nicks, since, key, claims, u);
      var i :| 0 <= i < |claims| && claims[i] == Claim(u, key, since[u]);
      assert Claimants(claims)[i] == u;
    }
  }

  lemma SameClaims(fold: Nick -> Key, nicks: map<Uuid, Nick>, since: map<Uuid, int>, key: Key, claims: seq<Claim>, order: seq<Claim>)
    requires nicks.Keys == since.Keys && ClaimsAre(fold, nicks, since, key, claims)
    ensures ClaimsAre(fold, nicks, since, key, order) <==> multiset(order) == multiset(claims)
  {
    hide Contenders;
    if multiset(order) == multiset(claims) {
      assert forall c :: c in order <==> c in multiset(claims);
      assert forall i :: 0 <= i < |order| ==> order[i] in order;
      forall c: Claim | true
        ensures multiset(order)[c] <= 1
      {
        OnceInSeq(claims, c);
      }
      AtMostOnce(order);
    } else if ClaimsAre(fold, nicks, since, key, order) {
      forall c: Claim | true
        ensures multiset(order)[c] == multiset(claims)[c]
      {
        OnceInSeq(claims, c);
        OnceInSeq(order, c);
      }
    }
  }

  /**
   Who ends up with a nick is the same in every order of visits if and only if one contender is
   strictly the oldest, or all are equally old and even in number.
   */
  lemma VisitOrderIrrelevantIff(fold: Nick -> Key, nicks: map<Uuid, Nick>, since: map<Uuid, int>, key: Key, visits: seq<Uuid>)
    requires nicks.Keys == since.Keys && Visits(visits, nicks)
    ensures (forall order :: Visits(order, nicks) ==>
               Holder(Claims(fold, nicks, since, order), key) == Holder(Claims(fold, nicks, since, visits), key))
            <==> SettledNick(fold, nicks, since, key)
  {
    hide Holder, Claims, Only, Contenders, SettledNick, Settled, ClaimsAre;
    var claims := Only(Claims(fold, nicks, since, visits), key);
    ClaimsOfVisits(fold, nicks, since, key, visits);
    SettledNickIff(fold, nicks, since, key, claims);
    HolderOnly(Claims(fold, nicks, since, visits), key);
    if SettledNick(fold, nicks, since, key) {
      forall order | Visits(order, nicks)
        ensures Holder(Claims(fold, nicks, since, order), key) == Holder(Claims(fold, nicks, since, visits), key)
      {
        var others := Only(Claims(fold, nicks, since, order), key);
        ClaimsOfVisits(fold, nicks, since, key, order);
        SameClaims(fold, nicks, since, key, claims, others);
        HolderOnly(Claims(fold, nicks, since, order), key);
        SettledAgree(claims, others, key);
      }
    } else {
      ClaimsAreDistinct(fold, nicks, since, key, claims);
      var one, other := UnsettledDiffer(claims, key);
      SameClaims(fold, nicks, since, key, claims, one);
      SameClaims(fold, nicks, since, key, claims, other);
      var a := VisitOrderFor(fold, nicks, since, key, visits, one);
      var b := VisitOrderFor(fold, nicks, since, key, visits, other);
    }
  }

  lemma ClaimsAreDistinct(fold: Nick -> Key, nicks: map<Uuid, Nick>, since: map<Uuid, int>, key: Key, claims: seq<Claim>)
    requires nicks.Keys == since.Keys && ClaimsAre(fold, nicks, since, key, claims)
    ensures AllFor(claims, key) && NoDuplicates(claims)
  {
  }

  /** The nick of a user after a pass in the given order. */
  ghost function FinalNick(fold: Nick -> Key, nicks: map<Uuid, Nick>, since: map<Uuid, int>, order: seq<Uuid>, u: Uuid): Nick
    requires nicks.Keys == since.Keys && Visits(order, nicks) && u in nicks
  {
    if Entitled(fold, nicks, since, Claims(fold, nicks, since, order), u) then nicks[u] else u.AsNick()
  }

  /** Whoever holds a nick is entitled to it. */
  lemma HolderIsEntitled(fold: Nick -> Key, nicks: map<Uuid, Nick>, since: map<Uuid, int>, order: seq<Uuid>, key: Key)
    requires nicks.Keys == since.Keys && Visits(order, nicks)
    ensures var h := Holder(Claims(fold, nicks, since, order), key);
            h.Some? ==> var u := h.value.user;
            && u in nicks && fold(nicks[u]) == key && h.value == Claim(u, key, since[u])
            && Entitled(fold, nicks, since, Claims(fold, nicks, since, order), u)
  {
    hide Holder, Claims;
    var claims := Claims(fold, nicks, since, order);
    HolderIsClaim(claims, key);
    var h := Holder(claims, key);
    if h.Some? {
      assert multiset(claims)[h.value] > 0;
      ClaimsOf(fold, nicks, since, order, h.value);
    }
  }

  /** If everyone ends up with the same nick in two orders, the same user holds each nick. */
  lemma SameNicksSameHolder(fold: Nick -> Key, nicks: map<Uuid, Nick>, since: map<Uuid, int>, order: seq<Uuid>, visits: seq<Uuid>, key: Key)
    requires nicks.Keys == since.Keys && Visits(order, nicks) && Visits(visits, nicks)
    requires forall u :: u in nicks ==> FinalNick(fold, nicks, since, order, u) == FinalNick(fold, nicks, since, visits, u)
    ensures Holder(Claims(fold, nicks, since, order), key) == Holder(Claims(fold, nicks, since, visits), key)
  {
    hide Holder, Claims;
    HolderIsEntitled(fold, nicks, since, order, key);
    HolderIsEntitled(fold, nicks, since, visits, key);
    var a, b := Holder(Claims(fold, nicks, since, order), key), Holder(Claims(fold, nicks, since, visits), key);
    if a.Some? {
      assert FinalNick(fold, nicks, since, order, a.value.user) == FinalNick(fold, nicks, since, visits, a.value.user);
    } else if b.Some? {
      assert FinalNick(fold, nicks, since, order, b.value.user) == FinalNick(fold, nicks, since, visits, b.value.user);
    }
  }

  /** The pass leaves everyone with the same nick in every order of visits if and only if every nick is settled. */
  lemma SameOutcomeIff(fold: Nick -> Key, nicks: map<Uuid, Nick>, since: map<Uuid, int>, visits: seq<Uuid>)
    requires nicks.Keys == since.Keys && Visits(visits, nicks)
    ensures (forall order, u :: Visits(order, nicks) && u in nicks ==> FinalNick(fold, nicks, since, order, u) == FinalNick(fold, nicks, since, visits, u))
            <==> forall key :: SettledNick(fold, nicks, since, key)
  {
    hide Holder, Claims, SettledNick, Visits;
    if forall order, u :: Visits(order, nicks) && u in nicks ==> FinalNick(fold, nicks, since, order, u) == FinalNick(fold, nicks, since, visits, u) {
      forall key | true
        ensures SettledNick(fold, nicks, since, key)
      {
        forall order | Visits(order, nicks)
          ensures (forall u :: u in order ==> u in nicks && u in since)
          ensures (forall u :: u in visits ==> u in nicks && u in since)
          ensures Holder(Claims(fold, nicks, since, order), key) == Holder(Claims(fold, nicks, since, visits), key)
        {
          VisitsOnly(order, nicks);
          VisitsOnly(visits, nicks);
          SameNicksSameHolder(fold, nicks, since, order, visits, key);
        }
        VisitOrderIrrelevantIff(fold, nicks, since, key, visits);
      }
    }
    if forall key :: SettledNick(fold, nicks, since, key) {
      forall order, u | Visits(order, nicks) && u in nicks
        ensures FinalNick(fold, nicks, since, order, u) == FinalNick(fold, nicks, since, visits, u)
      {
        VisitOrderIrrelevantIff(fold, nicks, since, fold(nicks[u]), visits);
      }
    }
  }

  lemma VisitsOnly(order: seq<Uuid>, nicks: map<Uuid, Nick>)
    requires Visits(order, nicks)
    ensures forall u :: u in order ==> u in nicks
  {
  }
}
