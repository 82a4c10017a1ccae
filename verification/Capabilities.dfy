/**
 The manager of IRCv3 client capabilities.

 Every registered capability owns one bit of a word and every local user has a word with the bits
 of the capabilities in use; bits are handed out again when a capability goes.  The manager works
 on words; the theorems treat a word as the set of positions of its one bits.  They say that the
 bits cannot be observed: in every run the manager behaves like a plain relation between users and
 capabilities, as long as no two capabilities are registered under one name.
 */
module Capabilities {
  import opened Collections
  import opened Words

  /** How many capabilities can be registered at a time; the next position marks protocol version 3.02. */
  const MAX_CAPS: nat := 63
  const CAP_302_POSITION: nat := MAX_CAPS

  /** A capability object: `id` stands for its address, `creator` for the module it belongs to. */
  datatype Cap = Cap(id: nat, name: string, creator: nat)

  // ----- the manager with bits

  /** The capabilities by case-folded name, the position of each registered one, and each local user's word. */
  datatype State = State(names: map<string, Cap>, bits: map<Cap, nat>, masks: map<nat, set<nat>>)

  /** The positions taken by the capabilities that the name map knows. */
  ghost function Used(s: State): set<nat>
  {
    set k | k in s.names && s.names[k] in s.bits :: s.bits[s.names[k]]
  }

  function FirstFree(used: set<nat>, i: nat): (r: Option<nat>)
    requires i <= MAX_CAPS
    ensures r.Some? ==> i <= r.value < MAX_CAPS && r.value !in used && forall j :: i <= j < r.value ==> j in used
    ensures r.None? ==> forall j :: i <= j < MAX_CAPS ==> j in used
    decreases MAX_CAPS - i
  {
    if i == MAX_CAPS then None else if i !in used then Some(i) else FirstFree(used, i + 1)
  }

  ghost function AddCap(fold: string -> string, s: State, c: Cap): State
  {
    if c in s.bits then s
    else
      match FirstFree(Used(s), 0)
      case None => s
      case Some(bit) =>
        State(if fold(c.name) in s.names then s.names else s.names[fold(c.name) := c], s.bits[c := bit], s.masks)
  }

  ghost function DelCap(fold: string -> string, s: State, c: Cap): State
  {
    if c !in s.bits then s
    else
      State(s.names - {fold(c.name)}, s.bits - {c}, map u | u in s.masks :: s.masks[u] - {s.bits[c]})
  }

  /** One token of a request: a name, preceded by a minus sign to turn the capability off. */
  function TokenName(token: string): string
  {
    if token != "" && token[0] == '-' then token[1..] else token
  }

  predicate TokenAdds(token: string)
  {
    !(token != "" && token[0] == '-')
  }

  /** The word after a request, or nothing if some token is refused. */
  ghost function Request(fold: string -> string, allows: (Cap, bool) -> bool, s: State, mask: set<nat>, tokens: seq<string>): Option<set<nat>>
    decreases tokens
  {
    if tokens == [] then Some(mask)
    else
      var key, adding := fold(TokenName(tokens[0])), TokenAdds(tokens[0]);
      if key !in s.names || s.names[key] !in s.bits then None
      else
        var cap := s.names[key];
        var bit := s.bits[cap];
        if (bit in mask) != adding && !allows(cap, adding) then None
        else Request(fold, allows, s, if adding then mask + {bit} else mask - {bit}, tokens[1..])
  }

  // ----- the same as a relation

  /** The registered capabilities by name, those each local user has enabled, and the users of version 3.02. */
  datatype Relation = Relation(caps: map<string, Cap>, enabled: map<nat, set<Cap>>, v302: set<nat>)

  ghost function RelAddCap(fold: string -> string, r: Relation, c: Cap): Relation
  {
    if c in r.caps.Values || |r.caps| == MAX_CAPS then r else r.(caps := r.caps[fold(c.name) := c])
  }

  ghost function RelDelCap(fold: string -> string, r: Relation, c: Cap): Relation
  {
    if c !in r.caps.Values then r
    else r.(caps := r.caps - {fold(c.name)}, enabled := map u | u in r.enabled :: r.enabled[u] - {c})
  }

  ghost function RelRequest(fold: string -> string, allows: (Cap, bool) -> bool, caps: map<string, Cap>, mine: set<Cap>, tokens: seq<string>): Option<set<Cap>>
    decreases tokens
  {
    if tokens == [] then Some(mine)
    else
      var key, adding := fold(TokenName(tokens[0])), TokenAdds(tokens[0]);
      if key !in caps then None
      else
        var cap := caps[key];
        if (cap in mine) != adding && !allows(cap, adding) then None
        else RelRequest(fold, allows, caps, if adding then mine + {cap} else mine - {cap}, tokens[1..])
  }

  // ----- the invariant and the refinement

  /** The registered capabilities are exactly those in the name map, each under its own name. */
  ghost predicate NamedOnce(fold: string -> string, names: map<string, Cap>, bits: map<Cap, nat>)
  {
    && (forall c :: c in bits ==> fold(c.name) in names && names[fold(c.name)] == c)
    && (forall k :: k in names ==> names[k] in bits && fold(names[k].name) == k)
  }

  /** The name map only leads to registered capabilities, whatever the names. */
  ghost predicate NamesRegistered(names: map<string, Cap>, bits: map<Cap, nat>)
  {
    forall k :: k in names ==> names[k] in bits
  }

  /** Registered capabilities have distinct positions. */
  ghost predicate DistinctBits(bits: map<Cap, nat>)
  {
    && (forall c :: c in bits ==> bits[c] < MAX_CAPS)
    && (forall c, d :: c in bits && d in bits && bits[c] == bits[d] ==> c == d)
  }

  ghost predicate Taken(bits: map<Cap, nat>, i: nat)
  {
    exists c :: c in bits && bits[c] == i
  }

  /** Users' words only hold positions of registered capabilities and that of version 3.02. */
  ghost predicate WordsCovered(bits: map<Cap, nat>, masks: map<nat, set<nat>>)
  {
    forall u, i :: u in masks && i in masks[u] ==> i == CAP_302_POSITION || Taken(bits, i)
  }

  ghost predicate Inv(fold: string -> string, s: State)
  {
    NamedOnce(fold, s.names, s.bits) && DistinctBits(s.bits) && WordsCovered(s.bits, s.masks)
  }

  /** The capabilities whose position is in a word. */
  ghost function CapsOf(bits: map<Cap, nat>, mask: set<nat>): set<Cap>
  {
    set c | c in bits && bits[c] in mask
  }

  /** What the bits stand for. */
  ghost function Meaning(s: State): Relation
  {
    Relation(s.names, map u | u in s.masks :: CapsOf(s.bits, s.masks[u]), set u | u in s.masks && CAP_302_POSITION in s.masks[u])
  }

  lemma RegisteredAreNamed(fold: string -> string, s: State)
    requires Inv(fold, s)
    ensures s.names.Values == s.bits.Keys
    ensures forall i :: i in Used(s) <==> Taken(s.bits, i)
  {
    forall c | c in s.bits
      ensures c in s.names.Values && s.bits[c] in Used(s)
    {
      assert s.names[fold(c.name)] == c;
    }
  }

  /** No name is registered twice, so there are as many names as taken positions. */
  lemma {:induction false} CountNames(names: map<string, Cap>, bits: map<Cap, nat>, used: set<nat>)
    requires forall k :: k in names ==> names[k] in bits
    requires forall j, k :: j in names && k in names && bits[names[j]] == bits[names[k]] ==> j == k
    requires used == set k | k in names :: bits[names[k]]
    ensures |used| == |names|
    decreases |names|
  {
    if names.Keys != {} {
      var k :| k in names;
      var rest := names - {k};
      var fewer := set j | j in rest :: bits[rest[j]];
      forall i | i in used
        ensures i in fewer || i == bits[names[k]]
      {
        var j :| j in names && bits[names[j]] == i;
        assert j == k || (j in rest && bits[rest[j]] == i);
      }
      assert used == fewer + {bits[names[k]]};
      assert bits[names[k]] !in fewer;
      CountNames(rest, bits, fewer);
      assert rest.Keys == names.Keys - {k};
      assert |rest| == |rest.Keys| && |names| == |names.Keys|;
    } else {
      assert |names| == |names.Keys|;
    }
  }

  lemma {:induction false} BelowIsFull(used: set<nat>, n: nat)
    requires forall i :: i in used ==> i < n
    ensures |used| <= n
    ensures |used| == n <==> forall i :: 0 <= i < n ==> i in used
    decreases n
  {
    if n > 0 {
      var fewer := used - {n - 1};
      BelowIsFull(fewer, n - 1);
      if n - 1 in used {
        assert used == fewer + {n - 1};
      } else {
        assert used == fewer;
      }
    }
  }

  /** Registering fails exactly when all positions are taken, which is when 63 capabilities are registered. */
  lemma AllocationFailsIff(fold: string -> string, s: State)
    requires Inv(fold, s)
    ensures FirstFree(Used(s), 0).None? <==> |s.names| == 63
  {
    RegisteredAreNamed(fold, s);
    CountNames(s.names, s.bits, Used(s));
    hide Used, NamedOnce, WordsCovered;
    BelowIsFull(Used(s), MAX_CAPS);
  }

  lemma AddCapNamed(fold: string -> string, s: State, c: Cap)
    requires NamedOnce(fold, s.names, s.bits) && (c in s.bits || fold(c.name) !in s.names)
    ensures var s' := AddCap(fold, s, c); NamedOnce(fold, s'.names, s'.bits)
  {
    hide Used;
  }

  lemma AddCapDistinct(bits: map<Cap, nat>, c: Cap, bit: nat)
    requires DistinctBits(bits) && c !in bits && bit < MAX_CAPS && !Taken(bits, bit)
    ensures DistinctBits(bits[c := bit])
  {
    assert forall d :: d in bits ==> Taken(bits, bits[d]);
  }

  lemma AddCapCovers(bits: map<Cap, nat>, masks: map<nat, set<nat>>, c: Cap, bit: nat)
    requires WordsCovered(bits, masks) && c !in bits
    ensures WordsCovered(bits[c := bit], masks)
  {
    var bits' := bits[c := bit];
    forall i | Taken(bits, i)
      ensures Taken(bits', i)
    {
      var d :| d in bits && bits[d] == i;
      assert d in bits' && bits'[d] == i;
    }
  }

  lemma AddCapKeeps(fold: string -> string, s: State, c: Cap)
    requires Inv(fold, s) && (c in s.bits || fold(c.name) !in s.names)
    ensures Inv(fold, AddCap(fold, s, c))
  {
    RegisteredAreNamed(fold, s);
    AddCapNamed(fold, s, c);
    hide Used, NamedOnce, DistinctBits, WordsCovered;
    var s' := AddCap(fold, s, c);
    if s' != s {
      AddCapDistinct(s.bits, c, s'.bits[c]);
      AddCapCovers(s.bits, s.masks, c, s'.bits[c]);
    }
  }

  lemma AddCapMeaning(fold: string -> string, s: State, c: Cap)
    requires Inv(fold, s) && (c in s.bits || fold(c.name) !in s.names)
    ensures Meaning(AddCap(fold, s, c)) == RelAddCap(fold, Meaning(s), c)
  {
    RegisteredAreNamed(fold, s);
    AllocationFailsIff(fold, s);
    hide Used, NamedOnce;
    var s' := AddCap(fold, s, c);
    if s' != s {
      forall u | u in s.masks
        ensures CapsOf(s'.bits, s.masks[u]) == CapsOf(s.bits, s.masks[u])
      {
        assert s'.bits[c] !in s.masks[u];
      }
      assert Meaning(s').enabled == Meaning(s).enabled;
    }
  }

  lemma DelCapKeeps(fold: string -> string, s: State, c: Cap)
    requires Inv(fold, s)
    ensures Inv(fold, DelCap(fold, s, c))
  {
    var s' := DelCap(fold, s, c);
    if c in s.bits {
      forall i | Taken(s.bits, i) && i != s.bits[c]
        ensures Taken(s'.bits, i)
      {
        var d :| d in s.bits && s.bits[d] == i;
        assert d in s'.bits && s'.bits[d] == i;
      }
    }
  }

  lemma DelCapMeaning(fold: string -> string, s: State, c: Cap)
    requires Inv(fold, s)
    ensures Meaning(DelCap(fold, s, c)) == RelDelCap(fold, Meaning(s), c)
  {
    RegisteredAreNamed(fold, s);
    hide Used, NamedOnce;
    var s' := DelCap(fold, s, c);
    if c in s.bits {
      forall u | u in s.masks
        ensures CapsOf(s'.bits, s'.masks[u]) == CapsOf(s.bits, s.masks[u]) - {c}
      {
      }
      assert Meaning(s').v302 == Meaning(s).v302;
    }
  }

  /** A request on the word is a request on the set of capabilities, and leaves all other positions alone. */
  lemma {:induction false} RequestRefines(fold: string -> string, allows: (Cap, bool) -> bool, s: State, mask: set<nat>, tokens: seq<string>)
    requires Inv(fold, s)
    ensures var after, rel := Request(fold, allows, s, mask, tokens), RelRequest(fold, allows, s.names, CapsOf(s.bits, mask), tokens);
            && (after.Some? <==> rel.Some?)
            && (after.Some? ==> rel.value == CapsOf(s.bits, after.value))
            && (after.Some? ==> forall i :: (i in after.value <==> i in mask) || Taken(s.bits, i))
    decreases tokens
  {
    if tokens != [] {
      var key, adding := fold(TokenName(tokens[0])), TokenAdds(tokens[0]);
      if key in s.names {
        var cap := s.names[key];
        var bit := s.bits[cap];
        var mask' := if adding then mask + {bit} else mask - {bit};
        var mine := CapsOf(s.bits, mask);
        assert CapsOf(s.bits, mask') == if adding then mine + {cap} else mine - {cap};
        RequestRefines(fold, allows, s, mask', tokens[1..]);
      }
    }
  }

  // ----- when a name is taken

  /** If the name is taken, the allocator does not see the new bit, and the next capability gets the same one. */
  lemma TakenNameSharesBit(fold: string -> string, s: State, c: Cap, d: Cap)
    requires Inv(fold, s) && c !in s.bits && |s.names| < MAX_CAPS && fold(c.name) in s.names && d !in s.bits && d != c
    ensures var s' := AddCap(fold, AddCap(fold, s, c), d);
            && c in s'.bits && d in s'.bits && s'.bits[c] == s'.bits[d] && s'.masks == s.masks
            && s'.names == if fold(d.name) in s.names then s.names else s.names[fold(d.name) := d]
  {
    AllocationFailsIff(fold, s);
    var s' := AddCap(fold, s, c);
    assert forall k :: k in s.names ==> s.names[k] in s.bits && s'.bits[s.names[k]] == s.bits[s.names[k]];
    assert Used(s') == Used(s);
    hide Used;
  }

  /** A user who then requests the second capability, by its own name, has the first one as well. */
  lemma SharedBitGivesBoth(fold: string -> string, allows: Policy, s: State, c: Cap, d: Cap, u: nat)
    requires Inv(fold, s) && c !in s.bits && |s.names| < MAX_CAPS && fold(c.name) in s.names && d !in s.bits && d != c
    requires fold(d.name) !in s.names && TokenName(d.name) == d.name && u in s.masks && allows(u, d, true)
    ensures var s' := AddCap(fold, AddCap(fold, s, c), d);
            var s'' := Perform(fold, allows, s', Req(u, [d.name]));
            && !Enabled(Meaning(s'), u, c) && !Enabled(Meaning(s'), u, d)
            && Enabled(Meaning(s''), u, c) && Enabled(Meaning(s''), u, d)
  {
    hide AddCap, Used, Inv, Perform, Meaning, Enabled;
    TakenNameSharesBit(fold, s, c, d);
    FirstFreeIsFree(fold, s, c);
    var s' := AddCap(fold, AddCap(fold, s, c), d);
    SharedBefore(fold, s, c, d, u);
    SharedAfter(fold, allows, s', c, d, u);
  }

  lemma SharedBefore(fold: string -> string, s: State, c: Cap, d: Cap, u: nat)
    requires Inv(fold, s) && c !in s.bits && |s.names| < MAX_CAPS && fold(c.name) in s.names && d !in s.bits && d != c && u in s.masks
    ensures var s' := AddCap(fold, AddCap(fold, s, c), d); !Enabled(Meaning(s'), u, c) && !Enabled(Meaning(s'), u, d)
  {
    hide Used, Inv, AddCap;
    TakenNameSharesBit(fold, s, c, d);
    FirstFreeIsFree(fold, s, c);
    RegisteredNow(fold, s, c);
    SameBitAfter(fold, AddCap(fold, s, c), c, d);
  }

  lemma RegisteredNow(fold: string -> string, s: State, c: Cap)
    requires Inv(fold, s) && |s.names| < MAX_CAPS
    ensures c in AddCap(fold, s, c).bits
  {
    hide Used;
    AllocationFailsIff(fold, s);
  }

  /** Registering a capability leaves the bits of the others alone. */
  lemma SameBitAfter(fold: string -> string, s: State, c: Cap, d: Cap)
    requires c in s.bits && c != d
    ensures c in AddCap(fold, s, d).bits && AddCap(fold, s, d).bits[c] == s.bits[c]
  {
    hide Used;
  }

  lemma SharedAfter(fold: string -> string, allows: Policy, s: State, c: Cap, d: Cap, u: nat)
    requires c in s.bits && d in s.bits && s.bits[c] == s.bits[d] && fold(d.name) in s.names && s.names[fold(d.name)] == d
    requires TokenName(d.name) == d.name && u in s.masks && allows(u, d, true)
    ensures var s' := Perform(fold, allows, s, Req(u, [d.name])); Enabled(Meaning(s'), u, c) && Enabled(Meaning(s'), u, d)
  {
    hide AddCap, DelCap;
    var mine := (cap, adding) => allows(u, cap, adding);
    WantedAlone(fold, mine, s, s.masks[u], d);
  }

  lemma WantedAlone(fold: string -> string, allows: (Cap, bool) -> bool, s: State, mask: set<nat>, d: Cap)
    requires d in s.bits && fold(d.name) in s.names && s.names[fold(d.name)] == d && TokenName(d.name) == d.name && allows(d, true)
    ensures Request(fold, allows, s, mask, [d.name]) == Some(mask + {s.bits[d]})
  {
    assert [d.name][0] == d.name && [d.name][1..] == [];
  }

  /** A bit that has just been allocated is in nobody's word. */
  lemma FirstFreeIsFree(fold: string -> string, s: State, c: Cap)
    requires Inv(fold, s) && c !in s.bits
    ensures var s' := AddCap(fold, s, c);
            c in s'.bits ==> forall u :: u in s.masks ==> s'.bits[c] !in s.masks[u]
  {
    RegisteredAreNamed(fold, s);
    hide Used, NamedOnce;
  }

  /** After a registration from a consistent state, bits are distinct whatever the name. */
  lemma NextIsDistinct(fold: string -> string, s: State, d: Cap)
    requires Inv(fold, s)
    ensures DistinctBits(AddCap(fold, s, d).bits)
  {
    RegisteredAreNamed(fold, s);
    hide Used, NamedOnce, WordsCovered, DistinctBits;
    var s' := AddCap(fold, s, d);
    if s' != s {
      AddCapDistinct(s.bits, d, s'.bits[d]);
    }
  }

  /** Some capability object is not registered. */
  lemma FreshCap(bits: map<Cap, nat>, c: Cap) returns (d: Cap)
    ensures d !in bits && d != c
  {
    var n := AboveAll(bits.Keys);
    d := Cap(n + c.id + 1, "", 0);
  }

  lemma {:induction false} AboveAll(caps: set<Cap>) returns (n: nat)
    ensures forall c :: c in caps ==> c.id < n
    decreases caps
  {
    if caps == {} {
      n := 0;
    } else {
      var c :| c in caps;
      var m := AboveAll(caps - {c});
      n := m + c.id + 1;
    }
  }

  /**
   While a bit is free, registering a capability is safe if and only if its name is: then every
   continuation that registers no taken name, and one more registration of whatever name, leaves
   bits distinct; otherwise the very next registration does not.
   */
  lemma RegistrationSafeIff(fold: string -> string, allows: Policy, s: State, c: Cap)
    requires Inv(fold, s) && c !in s.bits && |s.names| < MAX_CAPS
    ensures (forall steps, d :: NamesFree(fold, allows, Meaning(AddCap(fold, s, c)), steps) ==>
               DistinctBits(AddCap(fold, RunFrom(fold, allows, AddCap(fold, s, c), steps), d).bits))
            <==> fold(c.name) !in s.names
  {
    hide AddCap, NamesFree, RunFrom, DistinctBits, Meaning, Inv;
    var s' := AddCap(fold, s, c);
    if fold(c.name) !in s.names {
      AddCapKeeps(fold, s, c);
      forall steps, d | NamesFree(fold, allows, Meaning(s'), steps)
        ensures DistinctBits(AddCap(fold, RunFrom(fold, allows, s', steps), d).bits)
      {
        RunRefines(fold, allows, s', steps);
        NextIsDistinct(fold, RunFrom(fold, allows, s', steps), d);
      }
    } else {
      var d := FreshCap(s.bits, c);
      TakenNameSharesBit(fold, s, c, d);
      NoSteps(fold, allows, s');
      SharedIsNotDistinct(AddCap(fold, s', d).bits, c, d);
    }
  }

  lemma NoSteps(fold: string -> string, allows: Policy, s: State)
    ensures NamesFree(fold, allows, Meaning(s), []) && RunFrom(fold, allows, s, []) == s
  {
  }

  lemma SharedIsNotDistinct(bits: map<Cap, nat>, c: Cap, d: Cap)
    requires c in bits && d in bits && c != d && bits[c] == bits[d]
    ensures !DistinctBits(bits)
  {
  }

  /** Even when a name is taken, the name map only leads to registered capabilities before and after. */
  lemma RegisteringKeepsNames(fold: string -> string, s: State, c: Cap)
    requires NamesRegistered(s.names, s.bits)
    ensures NamesRegistered(AddCap(fold, s, c).names, AddCap(fold, s, c).bits)
    ensures OwnNames(fold, s.names) ==>
              NamesRegistered(DelCap(fold, s, c).names, DelCap(fold, s, c).bits)
  {
    hide Used;
  }

  // ----- what a request does

  /** The last thing a request says about a name. */
  function LastMention(fold: string -> string, tokens: seq<string>, key: string): Option<bool>
    decreases tokens
  {
    if tokens == [] then None
    else
      var later := LastMention(fold, tokens[1..], key);
      if later.Some? then later
      else if fold(TokenName(tokens[0])) == key then Some(TokenAdds(tokens[0])) else None
  }

  /** Every capability is registered under its own name. */
  ghost predicate OwnNames(fold: string -> string, caps: map<string, Cap>)
  {
    forall k :: k in caps ==> fold(caps[k].name) == k
  }

  /** Whether a user who starts with `mine` has `c` after the tokens. */
  ghost predicate HasAfter(fold: string -> string, mine: set<Cap>, tokens: seq<string>, c: Cap)
  {
    var mention := LastMention(fold, tokens, fold(c.name));
    if mention.Some? then mention.value else c in mine
  }

  /** After an accepted request the last mention of each capability decides, and the others are as before. */
  lemma {:induction false} LastMentionDecides(fold: string -> string, allows: (Cap, bool) -> bool, caps: map<string, Cap>,
                                              mine: set<Cap>, tokens: seq<string>, c: Cap)
    requires OwnNames(fold, caps) && RelRequest(fold, allows, caps, mine, tokens).Some?
    requires c in caps.Values
    ensures c in RelRequest(fold, allows, caps, mine, tokens).value <==> HasAfter(fold, mine, tokens, c)
    decreases tokens
  {
    if tokens != [] {
      var key, adding := fold(TokenName(tokens[0])), TokenAdds(tokens[0]);
      var cap := caps[key];
      var mine' := if adding then mine + {cap} else mine - {cap};
      LastMentionDecides(fold, allows, caps, mine', tokens[1..], c);
      var k :| k in caps && caps[k] == c;
      assert c == cap <==> fold(c.name) == key;
    }
  }

  /** A token is acceptable if it names a registered capability that already has the wanted state or allows the change. */
  ghost predicate Acceptable(fold: string -> string, allows: (Cap, bool) -> bool, caps: map<string, Cap>,
                             mine: set<Cap>, tokens: seq<string>, n: nat)
    requires n < |tokens|
  {
    var key, adding := fold(TokenName(tokens[n])), TokenAdds(tokens[n]);
    key in caps && (HasAfter(fold, mine, tokens[..n], caps[key]) == adding || allows(caps[key], adding))
  }

  lemma AcceptableShift(fold: string -> string, allows: (Cap, bool) -> bool, caps: map<string, Cap>,
                        mine: set<Cap>, tokens: seq<string>, n: nat)
    requires OwnNames(fold, caps) && 0 < n < |tokens| && fold(TokenName(tokens[0])) in caps
    ensures var cap := caps[fold(TokenName(tokens[0]))];
            var mine' := if TokenAdds(tokens[0]) then mine + {cap} else mine - {cap};
            Acceptable(fold, allows, caps, mine, tokens, n) <==> Acceptable(fold, allows, caps, mine', tokens[1..], n - 1)
  {
    assert tokens[..n][1..] == tokens[1..][..n - 1];
  }

  /** A request is accepted if and only if each of its tokens is acceptable after those before it. */
  lemma {:induction false} AcceptedIff(fold: string -> string, allows: (Cap, bool) -> bool, caps: map<string, Cap>,
                                       mine: set<Cap>, tokens: seq<string>)
    requires OwnNames(fold, caps)
    ensures RelRequest(fold, allows, caps, mine, tokens).Some? <==>
            forall n :: 0 <= n < |tokens| ==> Acceptable(fold, allows, caps, mine, tokens, n)
    decreases tokens
  {
    if tokens != [] {
      var key, adding := fold(TokenName(tokens[0])), TokenAdds(tokens[0]);
      assert tokens[..0] == [];
      assert Acceptable(fold, allows, caps, mine, tokens, 0) <==>
             key in caps && ((caps[key] in mine) == adding || allows(caps[key], adding));
      if Acceptable(fold, allows, caps, mine, tokens, 0) {
        var mine' := if adding then mine + {caps[key]} else mine - {caps[key]};
        AcceptedIff(fold, allows, caps, mine', tokens[1..]);
        forall n | 0 < n < |tokens|
          ensures Acceptable(fold, allows, caps, mine, tokens, n) <==> Acceptable(fold, allows, caps, mine', tokens[1..], n - 1)
        {
          AcceptableShift(fold, allows, caps, mine, tokens, n);
        }
        hide Acceptable;
        if forall n :: 0 <= n < |tokens| ==> Acceptable(fold, allows, caps, mine, tokens, n) {
          forall n | 0 <= n < |tokens[1..]|
            ensures Acceptable(fold, allows, caps, mine', tokens[1..], n)
          {
            assert Acceptable(fold, allows, caps, mine, tokens, n + 1);
          }
        }
      }
    }
  }

  // ----- whole runs

  datatype Step =
    | Connect(u: nat)
    | Disconnect(u: nat)
    | Register(c: Cap)
    | Unregister(c: Cap)
    | Req(u: nat, tokens: seq<string>)
    | Use302(u: nat)
    | Clear(u: nat)

  type Policy = (nat, Cap, bool) -> bool

  ghost function Perform(fold: string -> string, allows: Policy, s: State, step: Step): State
  {
    match step
    case Connect(u) => if u in s.masks then s else s.(masks := s.masks[u := {}])
    case Disconnect(u) => s.(masks := s.masks - {u})
    case Register(c) => AddCap(fold, s, c)
    case Unregister(c) => DelCap(fold, s, c)
    case Req(u, tokens) =>
      if u !in s.masks then s
      else
        var after := Request(fold, (c, adding) => allows(u, c, adding), s, s.masks[u], tokens);
        if after.Some? then s.(masks := s.masks[u := after.value]) else s
    case Use302(u) => if u in s.masks then s.(masks := s.masks[u := s.masks[u] + {CAP_302_POSITION}]) else s
    case Clear(u) => if u in s.masks && CAP_302_POSITION !in s.masks[u] then s.(masks := s.masks[u := {}]) else s
  }

  ghost function RelPerform(fold: string -> string, allows: Policy, r: Relation, step: Step): Relation
  {
    match step
    case Connect(u) => if u in r.enabled then r else r.(enabled := r.enabled[u := {}])
    case Disconnect(u) => r.(enabled := r.enabled - {u}, v302 := r.v302 - {u})
    case Register(c) => RelAddCap(fold, r, c)
    case Unregister(c) => RelDelCap(fold, r, c)
    case Req(u, tokens) =>
      if u !in r.enabled then r
      else
        var after := RelRequest(fold, (c, adding) => allows(u, c, adding), r.caps, r.enabled[u], tokens);
        if after.Some? then r.(enabled := r.enabled[u := after.value]) else r
    case Use302(u) => if u in r.enabled then r.(v302 := r.v302 + {u}) else r
    case Clear(u) => if u in r.enabled && u !in r.v302 then r.(enabled := r.enabled[u := {}]) else r
  }

  /** A capability is only registered while no other one with an equivalent name is. */
  ghost predicate NameFree(fold: string -> string, r: Relation, step: Step)
  {
    step.Register? ==> step.c in r.caps.Values || fold(step.c.name) !in r.caps
  }

  ghost predicate NamesFree(fold: string -> string, allows: Policy, r: Relation, steps: seq<Step>)
    decreases steps
  {
    steps == [] || (NameFree(fold, r, steps[0]) && NamesFree(fold, allows, RelPerform(fold, allows, r, steps[0]), steps[1..]))
  }

  ghost function RunFrom(fold: string -> string, allows: Policy, s: State, steps: seq<Step>): State
    decreases steps
  {
    if steps == [] then s else RunFrom(fold, allows, Perform(fold, allows, s, steps[0]), steps[1..])
  }

  ghost function RelRunFrom(fold: string -> string, allows: Policy, r: Relation, steps: seq<Step>): Relation
    decreases steps
  {
    if steps == [] then r else RelRunFrom(fold, allows, RelPerform(fold, allows, r, steps[0]), steps[1..])
  }

  lemma ReqRefines(fold: string -> string, allows: Policy, s: State, u: nat, tokens: seq<string>)
    requires Inv(fold, s)
    ensures var s' := Perform(fold, allows, s, Req(u, tokens));
            Inv(fold, s') && Meaning(s') == RelPerform(fold, allows, Meaning(s), Req(u, tokens))
  {
    if u in s.masks {
      RequestRefines(fold, (c, adding) => allows(u, c, adding), s, s.masks[u], tokens);
      BitsOnlyInRange(fold, s);
      hide Request, RelRequest, NamedOnce, DistinctBits;
      var s' := Perform(fold, allows, s, Req(u, tokens));
      assert CAP_302_POSITION in s'.masks[u] <==> CAP_302_POSITION in s.masks[u];
      assert Meaning(s').v302 == Meaning(s).v302;
      assert Meaning(s').enabled == RelPerform(fold, allows, Meaning(s), Req(u, tokens)).enabled;
    }
  }

  lemma BitsOnlyInRange(fold: string -> string, s: State)
    requires Inv(fold, s)
    ensures !Taken(s.bits, CAP_302_POSITION) && forall c :: c in s.bits ==> s.bits[c] != CAP_302_POSITION
  {
  }

  lemma WordChangeKeeps(fold: string -> string, allows: Policy, s: State, step: Step)
    requires Inv(fold, s) && (step.Connect? || step.Disconnect? || step.Use302? || step.Clear?)
    ensures Inv(fold, Perform(fold, allows, s, step))
  {
    hide NamedOnce, DistinctBits, Taken, Request, AddCap, DelCap;
  }

  lemma SetMaskMeaning(s: State, u: nat, mask: set<nat>)
    ensures Meaning(s.(masks := s.masks[u := mask])) ==
            Relation(s.names, Meaning(s).enabled[u := CapsOf(s.bits, mask)],
                     if CAP_302_POSITION in mask then Meaning(s).v302 + {u} else Meaning(s).v302 - {u})
  {
    var s' := s.(masks := s.masks[u := mask]);
    assert Meaning(s').enabled == Meaning(s).enabled[u := CapsOf(s.bits, mask)];
  }

  lemma WordChangeMeaning(fold: string -> string, allows: Policy, s: State, step: Step)
    requires Inv(fold, s) && (step.Connect? || step.Disconnect? || step.Use302? || step.Clear?)
    ensures Meaning(Perform(fold, allows, s, step)) == RelPerform(fold, allows, Meaning(s), step)
  {
    hide Inv, Taken, Request, RelRequest, AddCap, DelCap, RelAddCap, RelDelCap;
    var u := step.u;
    BitsOnlyInRange(fold, s);
    assert CapsOf(s.bits, {}) == {};
    if step.Disconnect? {
      assert Meaning(Perform(fold, allows, s, step)).enabled == Meaning(s).enabled - {u};
    } else if step.Use302? {
      if u in s.masks {
        SetMaskMeaning(s, u, s.masks[u] + {CAP_302_POSITION});
        assert CapsOf(s.bits, s.masks[u] + {CAP_302_POSITION}) == CapsOf(s.bits, s.masks[u]);
        assert Meaning(s).enabled[u := Meaning(s).enabled[u]] == Meaning(s).enabled;
      }
    } else {
      SetMaskMeaning(s, u, {});
      assert u !in Meaning(s).v302 ==> Meaning(s).v302 - {u} == Meaning(s).v302;
    }
  }

  /** Every step on the bits is the same step on the relation. */
  lemma PerformRefines(fold: string -> string, allows: Policy, s: State, step: Step)
    requires Inv(fold, s) && NameFree(fold, Meaning(s), step)
    ensures var s' := Perform(fold, allows, s, step);
            Inv(fold, s') && Meaning(s') == RelPerform(fold, allows, Meaning(s), step)
  {
    RegisteredAreNamed(fold, s);
    match step
    case Register(c) =>
      AddCapKeeps(fold, s, c);
      AddCapMeaning(fold, s, c);
    case Unregister(c) =>
      DelCapKeeps(fold, s, c);
      DelCapMeaning(fold, s, c);
    case Req(u, tokens) =>
      ReqRefines(fold, allows, s, u, tokens);
    case _ =>
      WordChangeKeeps(fold, allows, s, step);
      WordChangeMeaning(fold, allows, s, step);
  }

  /**
   In every run the bits behave like the relation: whatever bits are handed out again, a user has
   exactly the capabilities the relation says.
   */
  lemma {:induction false} RunRefines(fold: string -> string, allows: Policy, s: State, steps: seq<Step>)
    requires Inv(fold, s) && NamesFree(fold, allows, Meaning(s), steps)
    ensures Inv(fold, RunFrom(fold, allows, s, steps))
    ensures Meaning(RunFrom(fold, allows, s, steps)) == RelRunFrom(fold, allows, Meaning(s), steps)
    decreases steps
  {
    hide Inv, Perform, RelPerform, Meaning;
    if steps != [] {
      PerformRefines(fold, allows, s, steps[0]);
      RunRefines(fold, allows, Perform(fold, allows, s, steps[0]), steps[1..]);
    }
  }

  // ----- requests in terms of their text

  /** A token that turns the capability of a name on. */
  predicate Wants(fold: string -> string, token: string, key: string)
  {
    (token == "" || token[0] != '-') && fold(token) == key
  }

  /** A token that turns it off. */
  predicate Drops(fold: string -> string, token: string, key: string)
  {
    token != "" && token[0] == '-' && fold(token[1..]) == key
  }

  ghost predicate Unmentioned(fold: string -> string, tokens: seq<string>, key: string)
  {
    forall n :: 0 <= n < |tokens| ==> !Wants(fold, tokens[n], key) && !Drops(fold, tokens[n], key)
  }

  /** The last token about a name wants it. */
  ghost predicate WantedLast(fold: string -> string, tokens: seq<string>, key: string)
  {
    exists n :: 0 <= n < |tokens| && Wants(fold, tokens[n], key) && Unmentioned(fold, tokens[n + 1..], key)
  }

  /** The last token about a name drops it. */
  ghost predicate DroppedLast(fold: string -> string, tokens: seq<string>, key: string)
  {
    exists n :: 0 <= n < |tokens| && Drops(fold, tokens[n], key) && Unmentioned(fold, tokens[n + 1..], key)
  }

  lemma MentionedFirst(fold: string -> string, tokens: seq<string>, key: string)
    requires tokens != []
    ensures Unmentioned(fold, tokens, key) <==>
            !Wants(fold, tokens[0], key) && !Drops(fold, tokens[0], key) && Unmentioned(fold, tokens[1..], key)
    ensures WantedLast(fold, tokens, key) <==>
            WantedLast(fold, tokens[1..], key) || (Wants(fold, tokens[0], key) && Unmentioned(fold, tokens[1..], key))
    ensures DroppedLast(fold, tokens, key) <==>
            DroppedLast(fold, tokens[1..], key) || (Drops(fold, tokens[0], key) && Unmentioned(fold, tokens[1..], key))
  {
    var rest := tokens[1..];
    assert forall n :: 0 <= n < |rest| ==> rest[n] == tokens[n + 1] && rest[n + 1..] == tokens[n + 1 + 1..];
    if n :| 0 < n < |tokens| && Wants(fold, tokens[n], key) && Unmentioned(fold, tokens[n + 1..], key) {
      assert rest[n - 1] == tokens[n] && rest[n - 1 + 1..] == tokens[n + 1..];
    }
    if n :| 0 < n < |tokens| && Drops(fold, tokens[n], key) && Unmentioned(fold, tokens[n + 1..], key) {
      assert rest[n - 1] == tokens[n] && rest[n - 1 + 1..] == tokens[n + 1..];
    }
    if Unmentioned(fold, tokens, key) {
      assert forall n :: 0 <= n < |rest| ==> rest[n] == tokens[n + 1];
    }
    if Unmentioned(fold, rest, key) && !Wants(fold, tokens[0], key) && !Drops(fold, tokens[0], key) {
      assert forall n :: 0 < n < |tokens| ==> tokens[n] == rest[n - 1];
    }
    if n :| 0 <= n < |rest| && Wants(fold, rest[n], key) && Unmentioned(fold, rest[n + 1..], key) {
      assert tokens[n + 1] == rest[n] && tokens[n + 1 + 1..] == rest[n + 1..];
    }
    if n :| 0 <= n < |rest| && Drops(fold, rest[n], key) && Unmentioned(fold, rest[n + 1..], key) {
      assert tokens[n + 1] == rest[n] && tokens[n + 1 + 1..] == rest[n + 1..];
    }
  }

  /** What the last mention is, read off the text. */
  lemma {:induction false} LastMentionText(fold: string -> string, tokens: seq<string>, key: string)
    ensures LastMention(fold, tokens, key) == None <==> Unmentioned(fold, tokens, key)
    ensures LastMention(fold, tokens, key) == Some(true) <==> WantedLast(fold, tokens, key)
    ensures LastMention(fold, tokens, key) == Some(false) <==> DroppedLast(fold, tokens, key)
    decreases tokens
  {
    hide Unmentioned, WantedLast, DroppedLast;
    if tokens == [] {
      NothingMentioned(fold, key);
    } else {
      LastMentionText(fold, tokens[1..], key);
      MentionedFirst(fold, tokens, key);
      OnlyOneMention(fold, tokens, key);
    }
  }

  lemma NothingMentioned(fold: string -> string, key: string)
    ensures Unmentioned(fold, [], key) && !WantedLast(fold, [], key) && !DroppedLast(fold, [], key)
  {
  }

  lemma OnlyOneMention(fold: string -> string, tokens: seq<string>, key: string)
    requires tokens != []
    ensures !(Wants(fold, tokens[0], key) && Drops(fold, tokens[0], key))
    ensures Wants(fold, tokens[0], key) <==> fold(TokenName(tokens[0])) == key && TokenAdds(tokens[0])
    ensures Drops(fold, tokens[0], key) <==> fold(TokenName(tokens[0])) == key && !TokenAdds(tokens[0])
  {
  }

  /** After an accepted request the user has exactly what the last token about it wants, and of the rest what they had. */
  lemma RequestMeans(fold: string -> string, allows: (Cap, bool) -> bool, caps: map<string, Cap>, mine: set<Cap>, tokens: seq<string>, c: Cap)
    requires OwnNames(fold, caps) && RelRequest(fold, allows, caps, mine, tokens).Some? && c in caps.Values
    ensures c in RelRequest(fold, allows, caps, mine, tokens).value <==>
            WantedLast(fold, tokens, fold(c.name)) || (c in mine && Unmentioned(fold, tokens, fold(c.name)))
  {
    LastMentionDecides(fold, allows, caps, mine, tokens, c);
    LastMentionText(fold, tokens, fold(c.name));
  }

  /** An accepted request that ends in a name preceded by a minus sign takes the capability away; one that ends in the bare name gives it. */
  lemma LastTokenDecides(fold: string -> string, allows: (Cap, bool) -> bool, caps: map<string, Cap>, mine: set<Cap>, tokens: seq<string>, name: string)
    requires OwnNames(fold, caps)
    ensures var after := RelRequest(fold, allows, caps, mine, tokens + ["-" + name]);
            after.Some? ==> fold(name) in caps && caps[fold(name)] !in after.value
    ensures var after := RelRequest(fold, allows, caps, mine, tokens + [name]);
            (name == "" || name[0] != '-') && after.Some? ==> fold(name) in caps && caps[fold(name)] in after.value
  {
    LastTokenNamed(fold, allows, caps, mine, tokens, "-" + name);
    LastTokenNamed(fold, allows, caps, mine, tokens, name);
    var off, on := tokens + ["-" + name], tokens + [name];
    assert off[|tokens|] == "-" + name && (off[|tokens|])[1..] == name && off[|tokens| + 1..] == [];
    assert on[|tokens|] == name && on[|tokens| + 1..] == [];
    if RelRequest(fold, allows, caps, mine, off).Some? {
      var c := caps[fold(name)];
      RequestMeans(fold, allows, caps, mine, off, c);
      assert Drops(fold, off[|tokens|], fold(name));
      LastMentionText(fold, off, fold(name));
      assert DroppedLast(fold, off, fold(name));
    }
    if (name == "" || name[0] != '-') && RelRequest(fold, allows, caps, mine, on).Some? {
      var c := caps[fold(name)];
      RequestMeans(fold, allows, caps, mine, on, c);
      assert Wants(fold, on[|tokens|], fold(name));
    }
  }

  lemma {:induction false} LastTokenNamed(fold: string -> string, allows: (Cap, bool) -> bool, caps: map<string, Cap>, mine: set<Cap>,
                                          tokens: seq<string>, token: string)
    ensures RelRequest(fold, allows, caps, mine, tokens + [token]).Some? ==>
              (if token != "" && token[0] == '-' then fold(token[1..]) else fold(token)) in caps
    decreases tokens
  {
    var all := tokens + [token];
    if tokens == [] {
      assert all[0] == token;
    } else {
      var key, adding := fold(TokenName(tokens[0])), TokenAdds(tokens[0]);
      assert all[1..] == tokens[1..] + [token] && all[0] == tokens[0];
      if key in caps {
        LastTokenNamed(fold, allows, caps, if adding then mine + {caps[key]} else mine - {caps[key]}, tokens[1..], token);
      }
    }
  }

  /** The same for the words. */
  lemma LastTokenDecidesWord(fold: string -> string, allows: Policy, s: State, u: nat, tokens: seq<string>, name: string)
    requires Inv(fold, s) && u in s.masks
    ensures var request := tokens + ["-" + name];
            var s' := Perform(fold, allows, s, Req(u, request));
            Request(fold, (c, adding) => allows(u, c, adding), s, s.masks[u], request).Some? ==>
              fold(name) in s.names && s.names[fold(name)] !in Meaning(s').enabled[u]
    ensures var request := tokens + [name];
            var s' := Perform(fold, allows, s, Req(u, request));
            (name == "" || name[0] != '-') && Request(fold, (c, adding) => allows(u, c, adding), s, s.masks[u], request).Some? ==>
              fold(name) in s.names && s.names[fold(name)] in Meaning(s').enabled[u]
  {
    hide Request, RelRequest;
    var mine := (c, adding) => allows(u, c, adding);
    LastTokenDecides(fold, mine, s.names, CapsOf(s.bits, s.masks[u]), tokens, name);
    RequestRefines(fold, mine, s, s.masks[u], tokens + ["-" + name]);
    RequestRefines(fold, mine, s, s.masks[u], tokens + [name]);
  }

  /** What a user has before the token at a position, if the request gets that far. */
  ghost predicate HadBefore(fold: string -> string, mine: set<Cap>, tokens: seq<string>, n: nat, c: Cap)
    requires n <= |tokens|
  {
    WantedLast(fold, tokens[..n], fold(c.name)) || (c in mine && Unmentioned(fold, tokens[..n], fold(c.name)))
  }

  /** A token that gets through: its name is registered, and it asks for what the user has by then or for a change that is allowed. */
  ghost predicate GetsThrough(fold: string -> string, allows: (Cap, bool) -> bool, caps: map<string, Cap>, mine: set<Cap>, tokens: seq<string>, n: nat)
    requires n < |tokens|
  {
    var token := tokens[n];
    if token != "" && token[0] == '-'
    then var key := fold(token[1..]); key in caps && (!HadBefore(fold, mine, tokens, n, caps[key]) || allows(caps[key], false))
    else var key := fold(token); key in caps && (HadBefore(fold, mine, tokens, n, caps[key]) || allows(caps[key], true))
  }

  ghost predicate AllGetThrough(fold: string -> string, allows: (Cap, bool) -> bool, caps: map<string, Cap>, mine: set<Cap>, tokens: seq<string>)
  {
    forall n :: 0 <= n < |tokens| ==> GetsThrough(fold, allows, caps, mine, tokens, n)
  }

  /** A request is accepted if and only if every token gets through. */
  lemma AcceptedTextIff(fold: string -> string, allows: (Cap, bool) -> bool, caps: map<string, Cap>, mine: set<Cap>, tokens: seq<string>)
    requires OwnNames(fold, caps)
    ensures RelRequest(fold, allows, caps, mine, tokens).Some? <==> AllGetThrough(fold, allows, caps, mine, tokens)
  {
    AcceptedIff(fold, allows, caps, mine, tokens);
    forall n | 0 <= n < |tokens|
      ensures GetsThrough(fold, allows, caps, mine, tokens, n) <==> Acceptable(fold, allows, caps, mine, tokens, n)
    {
      var key := fold(TokenName(tokens[n]));
      if key in caps {
        LastMentionText(fold, tokens[..n], key);
      }
    }
  }

  // ----- what each step does to what a user has

  /** Whether a user has a capability after a step. */
  ghost predicate EnabledAfter(fold: string -> string, allows: Policy, r: Relation, step: Step, u: nat, c: Cap)
    requires u in r.enabled
  {
    match step
    case Unregister(d) => c in r.enabled[u] && c != d
    case Clear(v) => c in r.enabled[u] && (v == u ==> u in r.v302)
    case Req(v, tokens) =>
      if v == u && AllGetThrough(fold, (d, adding) => allows(u, d, adding), r.caps, r.enabled[u], tokens)
      then WantedLast(fold, tokens, fold(c.name)) || (c in r.enabled[u] && Unmentioned(fold, tokens, fold(c.name)))
      else c in r.enabled[u]
    case _ => c in r.enabled[u]
  }

  /** A step gives and takes exactly that, and a newcomer has nothing. */
  lemma StepEnables(fold: string -> string, allows: Policy, r: Relation, step: Step, u: nat, c: Cap)
    requires RelInv(fold, r) && c in r.caps.Values
    ensures var r' := RelPerform(fold, allows, r, step);
            && (u in r'.enabled <==> (u in r.enabled && step != Disconnect(u)) || step == Connect(u))
            && (u in r'.enabled && u in r.enabled ==> (c in r'.enabled[u] <==> EnabledAfter(fold, allows, r, step, u, c)))
            && (u in r'.enabled && u !in r.enabled ==> r'.enabled[u] == {})
  {
    hide AllGetThrough, WantedLast, Unmentioned;
    if step.Req? && step.u in r.enabled {
      var mine := (d, adding) => allows(step.u, d, adding);
      AcceptedTextIff(fold, mine, r.caps, r.enabled[step.u], step.tokens);
      if RelRequest(fold, mine, r.caps, r.enabled[step.u], step.tokens).Some? {
        RequestMeans(fold, mine, r.caps, r.enabled[step.u], step.tokens, c);
      }
    }
  }

  /** Who uses version 3.02 after a step: it is only ever turned on. */
  lemma StepSpeaks302(fold: string -> string, allows: Policy, r: Relation, step: Step, u: nat)
    ensures u in RelPerform(fold, allows, r, step).v302 <==>
            (u in r.v302 && step != Disconnect(u)) || (step == Use302(u) && u in r.enabled)
  {
    hide RelRequest;
  }

  /** Registering, unregistering and the names that are known afterwards. */
  lemma StepRegisters(fold: string -> string, allows: Policy, r: Relation, step: Step, key: string)
    requires RelInv(fold, r) && NameFree(fold, r, step) && |r.caps| <= MAX_CAPS
    ensures var caps' := RelPerform(fold, allows, r, step).caps;
            && (key in caps' <==> (key in r.caps && !(step.Unregister? && r.caps[key] == step.c))
                                  || (step.Register? && fold(step.c.name) == key && |r.caps| < MAX_CAPS))
            && (key in caps' ==> caps'[key] == if key in r.caps then r.caps[key] else step.c)
    ensures step.Register? ==> RelPerform(fold, allows, r, step).enabled == r.enabled
  {
    hide RelRequest;
    if step.Register? && step.c in r.caps.Values {
      var k :| k in r.caps && r.caps[k] == step.c;
      assert k == fold(step.c.name);
    }
    if step.Unregister? {
      if step.c in r.caps.Values {
        var k :| k in r.caps && r.caps[k] == step.c;
        assert k == fold(step.c.name);
      }
      if key in r.caps && r.caps[key] == step.c {
        assert step.c in r.caps.Values;
      }
    }
  }

  // ----- nobody gets what they did not request

  /** A request that ends up wanting the capability, after which it was not unregistered and the user stayed. */
  ghost predicate RequestedAt(fold: string -> string, steps: seq<Step>, i: nat, u: nat, c: Cap)
    requires i < |steps|
  {
    && steps[i].Req? && steps[i].u == u && WantedLast(fold, steps[i].tokens, fold(c.name))
    && forall j :: i < j < |steps| ==> steps[j] != Unregister(c) && steps[j] != Disconnect(u)
  }

  ghost predicate Enabled(r: Relation, u: nat, c: Cap)
  {
    u in r.enabled && c in r.enabled[u]
  }

  lemma OneStepEnables(fold: string -> string, allows: Policy, s: State, step: Step, u: nat, c: Cap)
    requires Inv(fold, s) && NameFree(fold, Meaning(s), step) && Enabled(Meaning(Perform(fold, allows, s, step)), u, c)
    ensures step != Disconnect(u) && step != Unregister(c)
    ensures Enabled(Meaning(s), u, c) || (step.Req? && step.u == u && WantedLast(fold, step.tokens, fold(c.name)))
  {
    hide Meaning, Inv, Perform, WantedLast, Unmentioned, AllGetThrough, RelRequest;
    var r := Meaning(s);
    PerformRefines(fold, allows, s, step);
    MeaningRelInv(fold, s);
    MeaningRelInv(fold, Perform(fold, allows, s, step));
    var r' := RelPerform(fold, allows, r, step);
    assert r'.caps[fold(c.name)] == c;
    if c in r.caps.Values {
      StepEnables(fold, allows, r, step, u, c);
    }
  }

  /**
   Whoever has a capability after a run had it from the start or requested it, and it has been
   registered ever since: a bit that is handed out again never gives anyone what they did not request.
   */
  lemma {:induction false} EnabledWasRequested(fold: string -> string, allows: Policy, s: State, steps: seq<Step>, u: nat, c: Cap)
    requires Inv(fold, s) && NamesFree(fold, allows, Meaning(s), steps) && Enabled(Meaning(RunFrom(fold, allows, s, steps)), u, c)
    ensures (Enabled(Meaning(s), u, c) && forall j :: 0 <= j < |steps| ==> steps[j] != Unregister(c) && steps[j] != Disconnect(u))
            || exists i :: 0 <= i < |steps| && RequestedAt(fold, steps, i, u, c)
    decreases steps
  {
    hide Meaning, Inv, Perform, WantedLast, Enabled, RelPerform, NameFree;
    if steps != [] {
      var s', rest := Perform(fold, allows, s, steps[0]), steps[1..];
      PerformRefines(fold, allows, s, steps[0]);
      EnabledWasRequested(fold, allows, s', rest, u, c);
      if i :| 0 <= i < |rest| && RequestedAt(fold, rest, i, u, c) {
        forall j | i + 1 < j < |steps|
          ensures steps[j] != Unregister(c) && steps[j] != Disconnect(u)
        {
          assert rest[j - 1] == steps[j];
        }
        assert RequestedAt(fold, steps, i + 1, u, c);
      } else {
        OneStepEnables(fold, allows, s, steps[0], u, c);
        forall j | 0 < j < |steps|
          ensures steps[j] != Unregister(c) && steps[j] != Disconnect(u)
        {
          assert rest[j - 1] == steps[j];
        }
        if !Enabled(Meaning(s), u, c) {
          assert RequestedAt(fold, steps, 0, u, c);
        }
      }
    }
  }

  // ----- reloading a module

  /** Who uses each of a module's capabilities, by name. */
  ghost function Save(r: Relation, mod: nat): map<string, set<nat>>
  {
    map k | k in r.caps && r.caps[k].creator == mod :: set u | u in r.enabled && r.caps[k] in r.enabled[u]
  }

  /** Turns the saved capabilities that exist again back on for the users that are still there. */
  ghost function Restore(r: Relation, saved: map<string, set<nat>>): Relation
  {
    r.(enabled := map u | u in r.enabled :: r.enabled[u] + set k | k in saved && k in r.caps && u in saved[k] :: r.caps[k])
  }

  /** The positions that restoring turns on for a user. */
  ghost function Restored(s: State, saved: map<string, set<nat>>, u: nat): set<nat>
  {
    set k | k in saved && k in s.names && s.names[k] in s.bits && u in saved[k] :: s.bits[s.names[k]]
  }

  /** The same on the bits. */
  ghost function RestoreBits(s: State, saved: map<string, set<nat>>): State
  {
    s.(masks := map u | u in s.masks :: s.masks[u] + Restored(s, saved, u))
  }

  lemma RestoreKeeps(fold: string -> string, s: State, saved: map<string, set<nat>>)
    requires Inv(fold, s)
    ensures Inv(fold, RestoreBits(s, saved))
  {
    forall u, i | i in Restored(s, saved, u)
      ensures Taken(s.bits, i)
    {
      var k :| k in saved && k in s.names && s.names[k] in s.bits && u in saved[k] && s.bits[s.names[k]] == i;
    }
    hide NamedOnce, DistinctBits, Taken, Restored;
  }

  lemma RestoreOneRefines(fold: string -> string, s: State, saved: map<string, set<nat>>, u: nat)
    requires Inv(fold, s) && u in s.masks
    ensures CapsOf(s.bits, s.masks[u] + Restored(s, saved, u)) == Restore(Meaning(s), saved).enabled[u]
    ensures CAP_302_POSITION !in Restored(s, saved, u)
  {
    var mine := Restore(Meaning(s), saved).enabled[u];
    forall c | c in s.bits && s.bits[c] in Restored(s, saved, u)
      ensures c in mine
    {
      var k :| k in saved && k in s.names && u in saved[k] && s.bits[s.names[k]] == s.bits[c];
      assert s.names[k] == c;
    }
    forall c | c in mine && c !in CapsOf(s.bits, s.masks[u])
      ensures c in s.bits && s.bits[c] in Restored(s, saved, u)
    {
      var k :| k in saved && k in s.names && u in saved[k] && s.names[k] == c;
    }
  }

  lemma RestoreEnabled(fold: string -> string, s: State, saved: map<string, set<nat>>)
    requires Inv(fold, s)
    ensures Meaning(RestoreBits(s, saved)).enabled == Restore(Meaning(s), saved).enabled
  {
    hide Inv, CapsOf, Restored;
    forall u | u in s.masks
      ensures CapsOf(s.bits, s.masks[u] + Restored(s, saved, u)) == Restore(Meaning(s), saved).enabled[u]
    {
      RestoreOneRefines(fold, s, saved, u);
    }
  }

  lemma RestoreVersions(fold: string -> string, s: State, saved: map<string, set<nat>>)
    requires Inv(fold, s)
    ensures Meaning(RestoreBits(s, saved)).v302 == Meaning(s).v302
  {
    hide Inv, CapsOf, Restored;
    forall u | u in s.masks
      ensures CAP_302_POSITION !in Restored(s, saved, u)
    {
      RestoreOneRefines(fold, s, saved, u);
    }
  }

  lemma RestoreRefines(fold: string -> string, s: State, saved: map<string, set<nat>>)
    requires Inv(fold, s)
    ensures Inv(fold, RestoreBits(s, saved)) && Meaning(RestoreBits(s, saved)) == Restore(Meaning(s), saved)
  {
    RestoreKeeps(fold, s, saved);
    RestoreEnabled(fold, s, saved);
    RestoreVersions(fold, s, saved);
  }

  /** Names and users only refer to registered capabilities, each under its own name. */
  ghost predicate RelInv(fold: string -> string, r: Relation)
  {
    && OwnNames(fold, r.caps)
    && (forall u, c :: u in r.enabled && c in r.enabled[u] ==> fold(c.name) in r.caps && r.caps[fold(c.name)] == c)
  }

  lemma MeaningRelInv(fold: string -> string, s: State)
    requires Inv(fold, s)
    ensures RelInv(fold, Meaning(s))
  {
  }

  ghost function EnabledNames(fold: string -> string, r: Relation, u: nat): set<string>
    requires u in r.enabled
  {
    set c | c in r.enabled[u] :: fold(c.name)
  }

  /** What may happen while a module is reloaded: its capabilities go and come, users may leave. */
  predicate ReloadStep(mod: nat, step: Step)
  {
    match step
    case Register(c) => c.creator == mod
    case Unregister(c) => c.creator == mod
    case Disconnect(_) => true
    case _ => false
  }

  /** During a reload no user gains a capability, and other modules' capabilities are untouched. */
  ghost predicate Reloading(fold: string -> string, mod: nat, r0: Relation, r: Relation)
  {
    && RelInv(fold, r)
    && (forall u :: u in r.enabled ==> u in r0.enabled && r.enabled[u] <= r0.enabled[u])
    && (forall u, c :: u in r.enabled && c in r0.enabled[u] && c.creator != mod ==> c in r.enabled[u])
    && (forall k :: k in r0.caps && r0.caps[k].creator != mod ==> k in r.caps && r.caps[k] == r0.caps[k])
  }

  lemma ReloadStepKeeps(fold: string -> string, allows: Policy, mod: nat, r0: Relation, r: Relation, step: Step)
    requires Reloading(fold, mod, r0, r) && ReloadStep(mod, step) && NameFree(fold, r, step)
    ensures Reloading(fold, mod, r0, RelPerform(fold, allows, r, step))
  {
    if step.Unregister? && step.c in r.caps.Values {
      var k :| k in r.caps && r.caps[k] == step.c;
      assert k == fold(step.c.name);
    }
  }

  lemma {:induction false} ReloadRunKeeps(fold: string -> string, allows: Policy, mod: nat, r0: Relation, r: Relation, steps: seq<Step>)
    requires Reloading(fold, mod, r0, r) && NamesFree(fold, allows, r, steps)
    requires forall i :: 0 <= i < |steps| ==> ReloadStep(mod, steps[i])
    ensures Reloading(fold, mod, r0, RelRunFrom(fold, allows, r, steps))
    decreases steps
  {
    hide Reloading, RelPerform;
    if steps != [] {
      ReloadStepKeeps(fold, allows, mod, r0, r, steps[0]);
      assert forall i :: 0 <= i < |steps[1..]| ==> steps[1..][i] == steps[i + 1];
      ReloadRunKeeps(fold, allows, mod, r0, RelPerform(fold, allows, r, steps[0]), steps[1..]);
    }
  }

  lemma RestoreGivesBack(fold: string -> string, mod: nat, r0: Relation, r: Relation, u: nat)
    requires RelInv(fold, r0) && Reloading(fold, mod, r0, r) && u in r.enabled
    ensures EnabledNames(fold, Restore(r, Save(r0, mod)), u) == EnabledNames(fold, r0, u) * r.caps.Keys
  {
    var saved := Save(r0, mod);
    var r' := Restore(r, saved);
    forall c | c in r'.enabled[u]
      ensures fold(c.name) in EnabledNames(fold, r0, u) && fold(c.name) in r.caps
    {
      if c !in r.enabled[u] {
        var k :| k in saved && k in r.caps && u in saved[k] && r.caps[k] == c;
        assert r0.caps[k] in r0.enabled[u] && fold(r0.caps[k].name) == k;
      }
    }
    forall c | c in r0.enabled[u] && fold(c.name) in r.caps
      ensures fold(c.name) in EnabledNames(fold, r', u)
    {
      var k := fold(c.name);
      if c.creator == mod {
        assert k in saved && u in saved[k];
        assert r.caps[k] in r'.enabled[u] && fold(r.caps[k].name) == k;
      }
    }
  }

  /**
   Saving, any coming and going of the module's capabilities, and restoring: every user that is
   still there has the same capabilities by name as before, except names that did not return.
   */
  lemma ReloadRestores(fold: string -> string, allows: Policy, mod: nat, s: State, steps: seq<Step>, u: nat)
    requires Inv(fold, s) && NamesFree(fold, allows, Meaning(s), steps)
    requires forall i :: 0 <= i < |steps| ==> ReloadStep(mod, steps[i])
    requires u in RunFrom(fold, allows, s, steps).masks
    ensures var s1 := RunFrom(fold, allows, s, steps);
            var s2 := RestoreBits(s1, Save(Meaning(s), mod));
            && u in s.masks && Inv(fold, s2)
            && EnabledNames(fold, Meaning(s2), u) == EnabledNames(fold, Meaning(s), u) * s1.names.Keys
  {
    var r := Meaning(s);
    var s1 := RunFrom(fold, allows, s, steps);
    RunRefines(fold, allows, s, steps);
    MeaningRelInv(fold, s);
    assert Reloading(fold, mod, r, r);
    ReloadRunKeeps(fold, allows, mod, r, r, steps);
    RestoreRefines(fold, s1, Save(r, mod));
    RestoreGivesBack(fold, mod, r, Meaning(s1), u);
  }

  // ----- the manager

  class ManagerImpl {
    const fold: string -> string
    var names: map<string, Cap>
    var bits: map<Cap, nat>       // the position of the bit of each registered capability
    var masks: map<nat, bv64>     // the word of each local user

    ghost predicate Valid()
      reads this
    {
      forall c :: c in bits ==> bits[c] < MAX_CAPS
    }

    ghost function Value(): State
      reads this
    {
      State(names, bits, map u | u in masks :: Positions(masks[u]))
    }

    constructor (fold: string -> string)
      ensures Valid() && this.fold == fold && Value() == State(map[], map[], map[])
      ensures Inv(fold, Value())
    {
      this.fold := fold;
      names, bits, masks := map[], map[], map[];
    }

    /** The first position that no capability in the name map holds. */
    method AllocateBit() returns (bit: Option<nat>)
      requires Valid()
      ensures bit == FirstFree(Used(Value()), 0)
    {
      hide Positions, AddToMask, HasPosition;
      NoPositions();
      var used: bv64 := 0;
      var todo := names.Keys;
      while todo != {}
        invariant todo <= names.Keys
        invariant Positions(used) == set k | k in names && k !in todo && names[k] in bits :: bits[names[k]]
      {
        var k :| k in todo;
        if names[k] in bits {
          AddToMaskPositions(used, bits[names[k]]);
          used := AddToMask(used, bits[names[k]]);
        }
        todo := todo - {k};
        assert forall j :: j in names && j !in todo <==> j in names && (j !in todo + {k} || j == k);
      }
      assert Positions(used) == Used(Value());
      for i := 0 to MAX_CAPS
        invariant FirstFree(Used(Value()), 0) == FirstFree(Used(Value()), i)
      {
        HasPositionIff(used, i);
        if !HasPosition(used, i) {
          return Some(i);
        }
      }
      return None;
    }

    /** Registers a capability; fails when there is no free bit. */
    method AddCapability(c: Cap) returns (ok: bool)
      requires Valid()
      modifies this`names, this`bits
      ensures Valid() && Value() == AddCap(fold, old(Value()), c)
      ensures ok <==> c in bits
    {
      hide Positions, Used;
      if c in bits {
        return true;
      }
      var bit := AllocateBit();
      if bit.None? {
        return false;
      }
      bits := bits[c := bit.value];
      if fold(c.name) !in names {
        names := names[fold(c.name) := c];
      }
      return true;
    }

    /** Unregisters a capability and turns it off for everyone. */
    method DelCapability(c: Cap)
      requires Valid()
      modifies this
      ensures Valid() && Value() == DelCap(fold, old(Value()), c)
    {
      hide Positions, DelFromMask;
      if c !in bits {
        return;
      }
      var todo := masks.Keys;
      while todo != {}
        invariant todo <= masks.Keys == old(masks).Keys && names == old(names) && bits == old(bits)
        invariant forall u :: u in masks ==>
                    Positions(masks[u]) == if u in todo then Positions(old(masks)[u]) else Positions(old(masks)[u]) - {bits[c]}
      {
        var u :| u in todo;
        DelFromMaskPositions(masks[u], bits[c]);
        masks := masks[u := DelFromMask(masks[u], bits[c])];
        todo := todo - {u};
      }
      bits := bits - {c};
      names := names - {fold(c.name)};
    }

    /** Applies a request as a whole or not at all. */
    method HandleReq(user: nat, tokens: seq<string>, allows: Policy) returns (ack: bool)
      requires Valid() && user in masks && NamesRegistered(names, bits)
      modifies this`masks
      ensures Value() == Perform(fold, allows, old(Value()), Req(user, tokens))
      ensures !ack ==> masks == old(masks)
      ensures ack <==> Request(fold, (c, adding) => allows(user, c, adding), old(Value()), old(Value()).masks[user], tokens).Some?
    {
      hide Positions;
      var usercaps := masks[user];
      ghost var start := Value();
      ghost var mine := (c, adding) => allows(user, c, adding);
      ghost var outcome := Request(fold, mine, start, Positions(usercaps), tokens);
      for i := 0 to |tokens|
        invariant masks == old(masks) && Request(fold, mine, start, Positions(usercaps), tokens[i..]) == outcome
      {
        assert tokens[i..][0] == tokens[i] && tokens[i..][1..] == tokens[i + 1..];
        var after := HandleToken(user, usercaps, tokens[i], allows);
        if after.None? {
          return false;
        }
        usercaps := after.value;
      }
      assert tokens[|tokens|..] == [];
      masks := masks[user := usercaps];
      return true;
    }

    /** The word after one token, or nothing if it is refused. */
    method HandleToken(user: nat, usercaps: bv64, token: string, allows: Policy) returns (after: Option<bv64>)
      requires Valid() && NamesRegistered(names, bits)
      ensures var off := token != "" && token[0] == '-';
              var key, adding := fold(if off then token[1..] else token), !off;
              && (after.None? <==> key !in names || ((bits[names[key]] in Positions(usercaps)) != adding && !allows(user, names[key], adding)))
              && (after.Some? ==> var bit := bits[names[key]];
                    Positions(after.value) == if adding then Positions(usercaps) + {bit} else Positions(usercaps) - {bit})
    {
      hide Positions, AddToMask, DelFromMask, HasPosition;
      var remove := token != "" && token[0] == '-';
      var capname := if remove then token[1..] else token;
      if fold(capname) !in names {
        return None;
      }
      var cap := names[fold(capname)];
      HasPositionIff(usercaps, bits[cap]);
      if !CanRequest(user, usercaps, cap, !remove, allows) {
        return None;
      }
      AddToMaskPositions(usercaps, bits[cap]);
      DelFromMaskPositions(usercaps, bits[cap]);
      return Some(if remove then DelFromMask(usercaps, bits[cap]) else AddToMask(usercaps, bits[cap]));
    }

    /** A change to the state a user already has is always granted. */
    predicate CanRequest(user: nat, usercaps: bv64, cap: Cap, adding: bool, allows: Policy)
      requires cap in bits && bits[cap] < MAX_CAPS
      reads this
    {
      var hascap := HasPosition(usercaps, bits[cap]);
      if hascap == adding then true else allows(user, cap, adding)
    }

    /** Records who uses the capabilities of a module that is about to be reloaded. */
    method OnReloadModuleSave(mod: nat) returns (saved: map<string, set<nat>>)
      requires Valid() && NamesRegistered(names, bits)
      ensures saved == Save(Meaning(Value()), mod)
      ensures forall k :: k in saved <==> k in names && names[k].creator == mod
      ensures forall k, u :: k in saved ==> (u in saved[k] <==> u in masks && bits[names[k]] in Positions(masks[u]))
    {
      hide Positions, HasPosition;
      saved := map[];
      var todo := names.Keys;
      ghost var all := Save(Meaning(Value()), mod);
      while todo != {}
        invariant todo <= names.Keys
        invariant saved == map k | k in all && k !in todo :: all[k]
      {
        var k :| k in todo;
        todo := todo - {k};
        var cap := names[k];
        if cap.creator == mod {
          var users := UsersWith(bits[cap]);
          assert users == all[k];
          saved := saved[k := users];
        }
      }
    }

    /** The local users whose word has the position. */
    method UsersWith(position: nat) returns (users: set<nat>)
      requires position < WIDTH
      ensures users == set u | u in masks && position in Positions(masks[u])
    {
      hide Positions, HasPosition;
      forall u | u in masks
        ensures HasPosition(masks[u], position) <==> position in Positions(masks[u])
      {
        HasPositionIff(masks[u], position);
      }
      users := set u | u in masks && HasPosition(masks[u], position);
    }

    /** Sets a bit for those of the users that are still there. */
    method TurnOn(bit: nat, users: set<nat>)
      requires bit < WIDTH
      modifies this`masks
      ensures masks.Keys == old(masks).Keys
      ensures forall u :: u in masks ==> Positions(masks[u]) == Positions(old(masks)[u]) + if u in users then {bit} else {}
    {
      hide Positions, AddToMask;
      var todo := users;
      while todo != {}
        invariant todo <= users && masks.Keys == old(masks).Keys
        invariant forall u :: u in masks ==> Positions(masks[u]) == Positions(old(masks)[u]) + if u in users - todo then {bit} else {}
      {
        var u :| u in todo;
        if u in masks {
          AddToMaskPositions(masks[u], bit);
          masks := masks[u := AddToMask(masks[u], bit)];
        }
        todo := todo - {u};
      }
    }

    method RestoreOne(ghost start: State, saved: map<string, set<nat>>, ghost todo: set<string>, k: string)
      requires Valid() && k in todo && todo <= saved.Keys && names == start.names && bits == start.bits && masks.Keys == start.masks.Keys
      requires k in names ==> names[k] in bits
      requires forall u :: u in masks ==> Positions(masks[u]) == WordSoFar(start, saved, todo, u)
      modifies this`masks
      ensures masks.Keys == start.masks.Keys
      ensures forall u :: u in masks ==> Positions(masks[u]) == WordSoFar(start, saved, todo - {k}, u)
    {
      hide WordSoFar, Positions;
      forall u | u in masks
        ensures WordSoFar(start, saved, todo - {k}, u) ==
                WordSoFar(start, saved, todo, u) + if k in names && u in saved[k] then {bits[names[k]]} else {}
      {
        WordSoFarStep(start, saved, todo, k, u);
      }
      if k in names {
        TurnOn(bits[names[k]], saved[k]);
      }
    }

    /** Turns capabilities back on for the users who had them. */
    method OnReloadModuleRestore(saved: map<string, set<nat>>)
      requires Valid() && NamesRegistered(names, bits)
      modifies this`masks
      ensures Value() == RestoreBits(old(Value()), saved)
    {
      hide WordSoFar, Restored, Positions;
      var todo := saved.Keys;
      ghost var start := Value();
      forall u | u in masks
        ensures WordSoFar(start, saved, saved.Keys, u) == Positions(masks[u])
        ensures WordSoFar(start, saved, {}, u) == Positions(masks[u]) + Restored(start, saved, u)
      {
        WordSoFarEnds(start, saved, u);
      }
      while todo != {}
        invariant todo <= saved.Keys && masks.Keys == start.masks.Keys
        invariant forall u :: u in masks ==> Positions(masks[u]) == WordSoFar(start, saved, todo, u)
      {
        var k :| k in todo;
        RestoreOne(start, saved, todo, k);
        todo := todo - {k};
      }
      assert Value().masks == RestoreBits(start, saved).masks;
    }
  }

  /** A user's word when all saved names but those in `todo` have been restored. */
  ghost function WordSoFar(s: State, saved: map<string, set<nat>>, todo: set<string>, u: nat): set<nat>
    requires u in s.masks
  {
    s.masks[u] + set k | k in saved && k !in todo && k in s.names && s.names[k] in s.bits && u in saved[k] :: s.bits[s.names[k]]
  }

  lemma WordSoFarEnds(s: State, saved: map<string, set<nat>>, u: nat)
    requires u in s.masks
    ensures WordSoFar(s, saved, saved.Keys, u) == s.masks[u]
    ensures WordSoFar(s, saved, {}, u) == s.masks[u] + Restored(s, saved, u)
  {
  }

  lemma WordSoFarStep(s: State, saved: map<string, set<nat>>, todo: set<string>, k: string, u: nat)
    requires u in s.masks && k in todo && todo <= saved.Keys && (k in s.names ==> s.names[k] in s.bits)
    ensures WordSoFar(s, saved, todo - {k}, u) ==
            WordSoFar(s, saved, todo, u) + if k in s.names && u in saved[k] then {s.bits[s.names[k]]} else {}
  {
    var before, after := WordSoFar(s, saved, todo, u), WordSoFar(s, saved, todo - {k}, u);
    forall i | i in after && i !in before
      ensures k in s.names && u in saved[k] && i == s.bits[s.names[k]]
    {
      var j :| j in saved && j !in todo - {k} && j in s.names && s.names[j] in s.bits && u in saved[j] && s.bits[s.names[j]] == i;
      assert j == k;
    }
    forall i | i in before
      ensures i in after
    {
      if i !in s.masks[u] {
        var j :| j in saved && j !in todo && j in s.names && s.names[j] in s.bits && u in saved[j] && s.bits[s.names[j]] == i;
        assert j !in todo - {k};
      }
    }
  }
}
