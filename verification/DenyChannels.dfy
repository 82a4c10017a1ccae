/**
 Forbidden channels and their redirects.

 A forbidden channel may send users elsewhere.  When the configuration is read, a redirect is only
 accepted if its target is whitelisted or not itself forbidden.  Channel masks are matched by an
 arbitrary relation here, so nothing depends on how globs work.
 */
module DenyChannels {

  datatype BadChannel = BadChannel(name: string, redirect: string, allowOpers: bool)

  /** What happens to a join: it proceeds, is refused, or is refused with a join elsewhere. */
  datatype Decision = PassThru | Deny | Redirect(target: string)

  type Matcher = (string, string) -> bool

  predicate Whitelisted(matches: Matcher, good: seq<string>, name: string)
  {
    exists i :: 0 <= i < |good| && matches(name, good[i])
  }

  predicate Blacklisted(matches: Matcher, bad: seq<BadChannel>, name: string)
  {
    exists i :: 0 <= i < |bad| && matches(name, bad[i].name)
  }

  /** Every redirect target is whitelisted or not forbidden. */
  predicate RedirectsChecked(matches: Matcher, good: seq<string>, bad: seq<BadChannel>)
  {
    forall i :: 0 <= i < |bad| && bad[i].redirect != "" ==>
      Whitelisted(matches, good, bad[i].redirect) || !Blacklisted(matches, bad, bad[i].redirect)
  }

  /** The first forbidden entry that matches. */
  predicate FirstAt(matches: Matcher, bad: seq<BadChannel>, cname: string, n: int)
  {
    0 <= n < |bad| && matches(cname, bad[n].name) && forall i :: 0 <= i < n ==> !matches(cname, bad[i].name)
  }

  method CheckRedirects(matches: Matcher, goodchans: seq<string>, badchans: seq<BadChannel>) returns (ok: bool)
    ensures ok <==> RedirectsChecked(matches, goodchans, badchans)
  {
    for i := 0 to |badchans|
      invariant forall j :: 0 <= j < i && badchans[j].redirect != "" ==>
                  Whitelisted(matches, goodchans, badchans[j].redirect) || !Blacklisted(matches, badchans, badchans[j].redirect)
    {
      var redirect := badchans[i].redirect;
      if redirect == "" {
        continue;
      }
      var whitelisted := false;
      for j := 0 to |goodchans|
        invariant !whitelisted && forall k :: 0 <= k < j ==> !matches(redirect, goodchans[k])
      {
        if matches(redirect, goodchans[j]) {
          whitelisted := true;
          break;
        }
      }
      if whitelisted {
        continue;
      }
      for j := 0 to |badchans|
        invariant forall k :: 0 <= k < j ==> !matches(redirect, badchans[k].name)
      {
        if matches(redirect, badchans[j].name) {
          return false;
        }
      }
    }
    return true;
  }

  class ModuleDenyChannels {
    const matches: Matcher
    var badchannels: seq<BadChannel>
    var goodchannels: seq<string>

    ghost predicate Valid()
      reads this
    {
      RedirectsChecked(matches, goodchannels, badchannels)
    }

    constructor (matches: Matcher)
      ensures Valid() && this.matches == matches && badchannels == [] && goodchannels == []
    {
      this.matches := matches;
      badchannels, goodchannels := [], [];
    }

    /** Replaces the configuration if every redirect is fine; otherwise the old one stays. */
    method ReadConfig(goodchans: seq<string>, badchans: seq<BadChannel>) returns (ok: bool)
      requires Valid()
      modifies this
      ensures Valid() && (ok <==> RedirectsChecked(matches, goodchans, badchans))
      ensures ok ==> badchannels == badchans && goodchannels == goodchans
      ensures !ok ==> badchannels == old(badchannels) && goodchannels == old(goodchannels)
    {
      ok := CheckRedirects(matches, goodchans, badchans);
      if ok {
        badchannels, goodchannels := badchans, goodchans;
      }
    }

    /** The first forbidden entry that matches decides; `noRedirect` says for a target that the user may not be sent there. */
    method OnUserPreJoin(cname: string, overridden: bool, isOper: bool, noRedirect: string -> bool) returns (decision: Decision)
      ensures decision == Decide(matches, goodchannels, badchannels, cname, overridden, isOper, noRedirect)
      ensures overridden || (forall i :: 0 <= i < |badchannels| ==> !matches(cname, badchannels[i].name)) ==> decision == PassThru
      ensures forall n :: !overridden && FirstAt(matches, badchannels, cname, n) ==>
                && (decision == PassThru <==> (isOper && badchannels[n].allowOpers) || exists j :: 0 <= j < |goodchannels| && matches(cname, goodchannels[j]))
                && (decision.Redirect? <==> decision != PassThru && badchannels[n].redirect != "" && !noRedirect(badchannels[n].redirect))
                && (decision.Redirect? ==> decision.target == badchannels[n].redirect)
    {
      DecisionIs(matches, goodchannels, badchannels, cname, overridden, isOper, noRedirect);
      if overridden {
        return PassThru;
      }
      for i := 0 to |badchannels|
        invariant forall j :: 0 <= j < i ==> !matches(cname, badchannels[j].name)
      {
        var badchan := badchannels[i];
        if !matches(cname, badchan.name) {
          continue;
        }
        FirstMatchAt(matches, badchannels, cname, i);
        if isOper && badchan.allowOpers {
          return PassThru;
        }
        for j := 0 to |goodchannels|
          invariant forall k :: 0 <= k < j ==> !matches(cname, goodchannels[k])
        {
          if matches(cname, goodchannels[j]) {
            return PassThru;
          }
        }
        if badchan.redirect == "" || noRedirect(badchan.redirect) {
          return Deny;
        }
        return Redirect(badchan.redirect);
      }
      FirstMatchAt(matches, badchannels, cname, |badchannels|);
      return PassThru;
    }
  }

  /** The position of the first entry that forbids a channel, or the length. */
  function FirstMatch(matches: Matcher, bad: seq<BadChannel>, cname: string): (n: nat)
    ensures n <= |bad| && (n < |bad| ==> matches(cname, bad[n].name))
    ensures forall j :: 0 <= j < n ==> !matches(cname, bad[j].name)
  {
    if bad == [] || matches(cname, bad[0].name) then 0
    else
      var n := FirstMatch(matches, bad[1..], cname);
      assert forall j :: 0 < j < n + 1 ==> bad[j] == bad[1..][j - 1];
      n + 1
  }

  lemma FirstMatchAt(matches: Matcher, bad: seq<BadChannel>, cname: string, n: nat)
    requires n <= |bad| && (n < |bad| ==> matches(cname, bad[n].name))
    requires forall j :: 0 <= j < n ==> !matches(cname, bad[j].name)
    ensures FirstMatch(matches, bad, cname) == n
  {
  }

  ghost function Decide(matches: Matcher, good: seq<string>, bad: seq<BadChannel>, cname: string,
                        overridden: bool, isOper: bool, noRedirect: string -> bool): Decision
  {
    var n := FirstMatch(matches, bad, cname);
    if overridden || n == |bad| then PassThru
    else if (isOper && bad[n].allowOpers) || Whitelisted(matches, good, cname) then PassThru
    else if bad[n].redirect == "" || noRedirect(bad[n].redirect) then Deny
    else Redirect(bad[n].redirect)
  }

  /** The decision, entry by entry. */
  lemma DecisionIs(matches: Matcher, good: seq<string>, bad: seq<BadChannel>, cname: string,
                   overridden: bool, isOper: bool, noRedirect: string -> bool)
    ensures var decision := Decide(matches, good, bad, cname, overridden, isOper, noRedirect);
            && (overridden || (forall i :: 0 <= i < |bad| ==> !matches(cname, bad[i].name)) ==> decision == PassThru)
            && forall n :: !overridden && FirstAt(matches, bad, cname, n) ==>
                 && (decision == PassThru <==> (isOper && bad[n].allowOpers) || exists j :: 0 <= j < |good| && matches(cname, good[j]))
                 && (decision.Redirect? <==> decision != PassThru && bad[n].redirect != "" && !noRedirect(bad[n].redirect))
                 && (decision.Redirect? ==> decision.target == bad[n].redirect)
  {
    forall n | FirstAt(matches, bad, cname, n)
      ensures FirstMatch(matches, bad, cname) == n
    {
      FirstMatchAt(matches, bad, cname, n);
    }
  }

  /** Under a checked configuration whoever is redirected gets into the target: redirects never chain and are never refused. */
  lemma RedirectsNeverChain(matches: Matcher, good: seq<string>, bad: seq<BadChannel>, cname: string,
                            overridden: bool, isOper: bool, noRedirect: string -> bool)
    requires RedirectsChecked(matches, good, bad)
    requires Decide(matches, good, bad, cname, overridden, isOper, noRedirect).Redirect?
    ensures var target := Decide(matches, good, bad, cname, overridden, isOper, noRedirect).target;
            Decide(matches, good, bad, target, overridden, isOper, noRedirect) == PassThru
  {
    var n := FirstMatch(matches, bad, cname);
    var target := bad[n].redirect;
    assert Whitelisted(matches, good, target) || !Blacklisted(matches, bad, target);
  }

  /** The check accepts exactly the configurations in which every redirect target lets ordinary users in. */
  lemma CheckedIffTargetsOpen(matches: Matcher, good: seq<string>, bad: seq<BadChannel>, noRedirect: string -> bool)
    ensures RedirectsChecked(matches, good, bad) <==>
            forall i :: 0 <= i < |bad| && bad[i].redirect != "" ==>
              Decide(matches, good, bad, bad[i].redirect, false, false, noRedirect) == PassThru
  {
    forall i | 0 <= i < |bad|
      ensures Decide(matches, good, bad, bad[i].redirect, false, false, noRedirect) == PassThru <==>
              Whitelisted(matches, good, bad[i].redirect) || !Blacklisted(matches, bad, bad[i].redirect)
    {
      var n := FirstMatch(matches, bad, bad[i].redirect);
    }
  }
}
