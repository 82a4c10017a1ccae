/**
 Which characters a codepage allows in nicks.

 The configuration names ranges of characters, optionally for the first position of a nick too; a
 range with a forbidden character is refused.  The model follows the configuration loop, with its
 32-bit counter, and the check of nicks, and proves what a successful configuration amounts to.
 */
module Codepage {

  const UCHAR_MAX: nat := 255
  const UINT32_RANGE: nat := 0x1_0000_0000

  datatype AllowCharacterResult = OKAY | NOT_VALID | NOT_VALID_AT_FRONT

  /** A configuration tag: a range of characters, and whether they may begin a nick. */
  datatype Range = Range(begin: nat, end: nat, front: bool)

  predicate Uint32(n: nat)
  {
    n < UINT32_RANGE
  }

  /** Never allowed: NUL, LF, CR, space, exclamation mark, asterisk, comma, period, question mark, at sign. */
  predicate NeverValid(c: nat)
  {
    c == 0 || c == 10 || c == 13 || c == 32 || c == 33 || c == 42 || c == 44 || c == 46 || c == 63 || c == 64
  }

  /** Not allowed at the front: digits, dollar sign, colon, channel prefixes and prefixes of prefix modes. */
  predicate NeverFirst(isPrefix: nat -> bool, c: nat)
  {
    48 <= c <= 57 || c == 36 || c == 58 || isPrefix(c)
  }

  /** The common rules: the front rules are looked at first. */
  function BaseAllowCharacter(isPrefix: nat -> bool, c: nat, front: bool): AllowCharacterResult
  {
    if front && NeverFirst(isPrefix, c) then NOT_VALID_AT_FRONT
    else if NeverValid(c) then NOT_VALID
    else OKAY
  }

  /** Whether every character of a range can be allowed. */
  ghost predicate Acceptable(isPrefix: nat -> bool, r: Range)
  {
    && r.begin != 0 && r.begin <= r.end
    && (forall c: nat :: r.begin <= c <= r.end ==> c <= UCHAR_MAX && BaseAllowCharacter(isPrefix, c, r.front) == OKAY)
  }

  lemma AcceptableAt(isPrefix: nat -> bool, r: Range, c: nat)
    requires r.begin <= c <= r.end
    ensures Acceptable(isPrefix, r) ==> c <= UCHAR_MAX && BaseAllowCharacter(isPrefix, c, r.front) == OKAY
  {
    var result := BaseAllowCharacter(isPrefix, c, r.front);
  }

  /** Characters that some range covers. */
  ghost predicate Covered(ranges: seq<Range>, c: nat)
  {
    exists i :: 0 <= i < |ranges| && ranges[i].begin <= c <= ranges[i].end
  }

  /** Whether the last range that covers a character allows it at the front. */
  ghost predicate FrontByLast(ranges: seq<Range>, c: nat)
  {
    if ranges == [] then false
    else
      var last := ranges[|ranges| - 1];
      if last.begin <= c <= last.end then last.front else FrontByLast(ranges[..|ranges| - 1], c)
  }

  lemma CoveredOneMore(ranges: seq<Range>, r: Range, c: nat)
    ensures Covered(ranges + [r], c) <==> Covered(ranges, c) || r.begin <= c <= r.end
    ensures FrontByLast(ranges + [r], c) <==> if r.begin <= c <= r.end then r.front else FrontByLast(ranges, c)
  {
    var all := ranges + [r];
    assert all[..|ranges|] == ranges;
    if r.begin <= c <= r.end {
      assert all[|ranges|] == r;
    }
    if i :| 0 <= i < |ranges| && ranges[i].begin <= c <= ranges[i].end {
      assert all[i] == ranges[i];
    }
  }

  lemma {:induction false} FrontIsCovered(ranges: seq<Range>, c: nat)
    requires FrontByLast(ranges, c)
    ensures exists i :: 0 <= i < |ranges| && ranges[i].begin <= c <= ranges[i].end && ranges[i].front
    decreases ranges
  {
    var n := |ranges| - 1;
    if !(ranges[n].begin <= c <= ranges[n].end) {
      FrontIsCovered(ranges[..n], c);
      var i :| 0 <= i < n && ranges[..n][i].begin <= c <= ranges[..n][i].end && ranges[..n][i].front;
      assert ranges[i].begin <= c <= ranges[i].end && ranges[i].front;
    }
  }

  /** The characters that may never be in a nick, as they appear in messages. */
  lemma NeverValidIs(c: nat)
    requires c <= UCHAR_MAX
    ensures NeverValid(c) <==> c as char in ['\0', '\n', '\r', ' ', '!', '*', ',', '.', '?', '@']
  {
  }

  /** The characters that may never begin one, apart from prefixes. */
  lemma NeverFirstIs(isPrefix: nat -> bool, c: nat)
    requires c <= UCHAR_MAX
    ensures NeverFirst(isPrefix, c) <==> '0' <= c as char <= '9' || c as char in ['$', ':'] || isPrefix(c)
  {
  }

  /** The characters that a list of ranges allows, anywhere and at the front. */
  ghost predicate AllowedBy(ranges: seq<Range>, allowed: set<nat>, front: set<nat>)
  {
    forall c: nat :: (c in allowed <==> Covered(ranges, c)) && (c in front <==> FrontByLast(ranges, c))
  }

  /** After acceptable ranges no forbidden character is allowed anywhere, and none at the front that is forbidden there. */
  lemma AllowedAreValid(isPrefix: nat -> bool, ranges: seq<Range>, allowed: set<nat>, front: set<nat>, c: nat)
    requires (forall i :: 0 <= i < |ranges| ==> Acceptable(isPrefix, ranges[i])) && AllowedBy(ranges, allowed, front)
    ensures c in allowed ==> c <= UCHAR_MAX && !NeverValid(c)
    ensures c in front ==> c in allowed && !NeverFirst(isPrefix, c)
  {
    if c in front {
      FrontIsCovered(ranges, c);
      var i :| 0 <= i < |ranges| && ranges[i].begin <= c <= ranges[i].end && ranges[i].front;
      assert BaseAllowCharacter(isPrefix, c, true) == OKAY;
    }
    if c in allowed {
      var i :| 0 <= i < |ranges| && ranges[i].begin <= c <= ranges[i].end;
      assert BaseAllowCharacter(isPrefix, c, ranges[i].front) == OKAY;
    }
  }

  class SingleByteCodepage {
    const isPrefix: nat -> bool
    var allowedchars: set<nat>
    var allowedfrontchars: set<nat>

    constructor (isPrefix: nat -> bool)
      ensures this.isPrefix == isPrefix && allowedchars == {} && allowedfrontchars == {}
    {
      this.isPrefix := isPrefix;
      allowedchars, allowedfrontchars := {}, {};
    }

    /** Allows one character; the front permission is the one asked for last. */
    method AllowCharacter(c: nat, front: bool) returns (result: AllowCharacterResult)
      modifies this
      ensures result == if c > UCHAR_MAX then NOT_VALID else BaseAllowCharacter(isPrefix, c, front)
      ensures result != OKAY ==> allowedchars == old(allowedchars) && allowedfrontchars == old(allowedfrontchars)
      ensures result == OKAY ==> allowedchars == old(allowedchars) + {c}
      ensures result == OKAY ==> allowedfrontchars == if front then old(allowedfrontchars) + {c} else old(allowedfrontchars) - {c}
    {
      if c > UCHAR_MAX {
        return NOT_VALID;
      }
      result := BaseAllowCharacter(isPrefix, c, front);
      if result != OKAY {
        return;
      }
      allowedchars := allowedchars + {c};
      allowedfrontchars := if front then allowedfrontchars + {c} else allowedfrontchars - {c};
    }

    /** Allows the characters of one tag.  The 32-bit counter wraps, but a character beyond a byte ends the loop before. */
    method AllowRange(r: Range) returns (ok: bool)
      requires Uint32(r.begin) && Uint32(r.end)
      modifies this
      ensures ok <==> Acceptable(isPrefix, r)
      ensures ok ==> forall c: nat :: c in allowedchars <==> c in old(allowedchars) || r.begin <= c <= r.end
      ensures ok ==> forall c: nat :: c in allowedfrontchars <==> if r.begin <= c <= r.end then r.front else c in old(allowedfrontchars)
    {
      if r.begin == 0 {
        return false;
      }
      if r.begin > r.end {
        return false;
      }
      var pos := r.begin;
      while pos <= r.end
        invariant r.begin <= pos <= r.end + 1 && Uint32(pos)
        invariant pos == r.begin || pos <= UCHAR_MAX + 1
        invariant forall c: nat :: r.begin <= c < pos ==> c <= UCHAR_MAX && BaseAllowCharacter(isPrefix, c, r.front) == OKAY
        invariant forall c: nat :: c in allowedchars <==> c in old(allowedchars) || r.begin <= c < pos
        invariant forall c: nat :: c in allowedfrontchars <==> if r.begin <= c < pos then r.front else c in old(allowedfrontchars)
        decreases r.end + 1 - pos
      {
        var result := AllowCharacter(pos, r.front);
        if result != OKAY {
          AcceptableAt(isPrefix, r, pos);
          return false;
        }
        pos := (pos + 1) % UINT32_RANGE;
      }
      return true;
    }

    /** Reads all ranges of a configuration; the first unacceptable one refuses it. */
    method ReadRanges(ranges: seq<Range>) returns (ok: bool)
      requires allowedchars == {} && allowedfrontchars == {}
      requires forall i :: 0 <= i < |ranges| ==> Uint32(ranges[i].begin) && Uint32(ranges[i].end)
      modifies this
      ensures ok <==> forall i :: 0 <= i < |ranges| ==> Acceptable(isPrefix, ranges[i])
      ensures ok ==> AllowedBy(ranges, allowedchars, allowedfrontchars)
    {
      for i := 0 to |ranges|
        invariant forall j :: 0 <= j < i ==> Acceptable(isPrefix, ranges[j])
        invariant AllowedBy(ranges[..i], allowedchars, allowedfrontchars)
      {
        assert ranges[..i + 1] == ranges[..i] + [ranges[i]];
        forall c: nat | true
          ensures Covered(ranges[..i + 1], c) <==> Covered(ranges[..i], c) || ranges[i].begin <= c <= ranges[i].end
          ensures FrontByLast(ranges[..i + 1], c) <==>
                  if ranges[i].begin <= c <= ranges[i].end then ranges[i].front else FrontByLast(ranges[..i], c)
        {
          CoveredOneMore(ranges[..i], ranges[i], c);
        }
        var accepted := AllowRange(ranges[i]);
        if !accepted {
          return false;
        }
      }
      assert ranges[..|ranges|] == ranges;
      return true;
    }

    /** Accepts a nick of bytes that is neither empty nor too long, from its allowed characters only. */
    method IsValidNick(nick: seq<nat>, maxNick: nat) returns (valid: bool)
      ensures valid <==>
                (nick != [] && |nick| <= maxNick && nick[0] in allowedfrontchars && forall i :: 0 <= i < |nick| ==> nick[i] in allowedchars)
    {
      if nick == [] || |nick| > maxNick {
        return false;
      }
      for i := 0 to |nick|
        invariant i > 0 ==> nick[0] in allowedfrontchars
        invariant forall j :: 0 <= j < i ==> nick[j] in allowedchars
      {
        if i == 0 && nick[i] !in allowedfrontchars {
          return false;
        }
        if nick[i] !in allowedchars {
          return false;
        }
      }
      return true;
    }
  }

  /** With a successfully read configuration, an accepted nick has no forbidden character and no forbidden first character. */
  method ConfigureAndCheck(isPrefix: nat -> bool, ranges: seq<Range>, nick: seq<nat>, maxNick: nat) returns (ok: bool, valid: bool)
    requires forall i :: 0 <= i < |ranges| ==> Uint32(ranges[i].begin) && Uint32(ranges[i].end)
    ensures ok <==> forall i :: 0 <= i < |ranges| ==> Acceptable(isPrefix, ranges[i])
    ensures valid ==> ok && nick != [] && |nick| <= maxNick && !NeverFirst(isPrefix, nick[0])
    ensures valid ==> forall i :: 0 <= i < |nick| ==> nick[i] <= UCHAR_MAX && !NeverValid(nick[i])
    ensures valid ==> forall i :: 0 <= i < |nick| ==> nick[i] <= UCHAR_MAX && nick[i] as char !in ['\0', '\n', '\r', ' ', '!', '*', ',', '.', '?', '@']
    ensures valid ==> !('0' <= nick[0] as char <= '9') && nick[0] as char !in ['$', ':'] && !isPrefix(nick[0])
    ensures ok ==> (valid <==> nick != [] && |nick| <= maxNick && FrontByLast(ranges, nick[0]) && forall i :: 0 <= i < |nick| ==> Covered(ranges, nick[i]))
  {
    var codepage := new SingleByteCodepage(isPrefix);
    ok := codepage.ReadRanges(ranges);
    if !ok {
      return false, false;
    }
    valid := codepage.IsValidNick(nick, maxNick);
    if valid {
      AllowedAreValid(isPrefix, ranges, codepage.allowedchars, codepage.allowedfrontchars, nick[0]);
      forall i | 0 <= i < |nick|
        ensures nick[i] <= UCHAR_MAX && !NeverValid(nick[i])
        ensures nick[i] as char !in ['\0', '\n', '\r', ' ', '!', '*', ',', '.', '?', '@']
      {
        AllowedAreValid(isPrefix, ranges, codepage.allowedchars, codepage.allowedfrontchars, nick[i]);
        NeverValidIs(nick[i]);
      }
      NeverFirstIs(isPrefix, nick[0]);
    }
  }
}
