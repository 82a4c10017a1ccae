/**
 Splitting a list of mode changes over MODE messages.

 `ToModeLetters` prints as many changes as fit on one line, `BuildMessages` repeats it until
 every change has been sent.  The model keeps both loops and proves them against the wire
 format of section 4.2.3 of RFC 1459: decoding the messages gives the change list back, every
 message keeps to the line limit, and no other division of the list uses fewer messages.
 */
module ModeLine {
  import opened Collections
  import opened Packing

  /** The room a MODE message leaves for mode letters and parameters. */
  const MAX_LINE: nat := 450

  /** The longest parameter that still fits on a line of its own: a sign, a letter and a separator precede it. */
  const MAX_SENDABLE_PARAM: nat := 447

  /** The documented limit on the length of a mode parameter. */
  const MODE_PARAM_MAX: nat := 250

  /** One mode change; an empty parameter means that the change has none. */
  datatype Change = Change(adding: bool, letter: char, param: string)

  /** A MODE message: the range of changes it carries and its parameters. */
  datatype Message = Message(begin: nat, end: nat, params: seq<string>)

  function Sign(adding: bool): char
  {
    if adding then '+' else '-'
  }

  /** Mode letters are never signs; the mode parser only registers handlers whose letter is in A-Z or a-z. */
  predicate ProperLetters(changes: seq<Change>)
  {
    forall i :: 0 <= i < |changes| ==> changes[i].letter != '+' && changes[i].letter != '-'
  }

  // ----- the wire format

  /** The letters for `changes` when the sign `pm` is in force; '\0' stands for no sign yet. */
  function Letters(pm: char, changes: seq<Change>): string
    decreases changes
  {
    if changes == [] then ""
    else
      var needed := Sign(changes[0].adding);
      (if needed != pm then [needed] else "") + ([changes[0].letter] + Letters(needed, changes[1..]))
  }

  /** The sign in force after `changes`. */
  function LastSign(pm: char, changes: seq<Change>): char
  {
    if changes == [] then pm else Sign(changes[|changes| - 1].adding)
  }

  function Params(changes: seq<Change>): seq<string>
  {
    if changes == [] then []
    else (if changes[0].param == "" then [] else [changes[0].param]) + Params(changes[1..])
  }

  /** The room a line with these changes takes. */
  function Room(changes: seq<Change>): nat
  {
    |Letters('\0', changes)| + SeparatedRoom(Params(changes))
  }

  predicate FitsWithin(limit: nat, changes: seq<Change>)
  {
    Room(changes) <= limit
  }

  // ----- reading the wire format

  datatype Decoded = Malformed | Changes(list: seq<Change>)

  /**
   Reads mode letters from left to right as a client does.  A sign applies until the next one,
   and `takesParam` says whether a letter consumes the next parameter under a sign.
   */
  function Decode(takesParam: (char, bool) -> bool, adding: bool, letters: string, params: seq<string>): Decoded
    decreases letters
  {
    if letters == "" then
      if params == [] then Changes([]) else Malformed
    else if letters[0] == '+' || letters[0] == '-' then
      Decode(takesParam, letters[0] == '+', letters[1..], params)
    else if takesParam(letters[0], adding) && params == [] then
      Malformed
    else
      var takes := takesParam(letters[0], adding);
      var param := if takes then params[0] else "";
      match Decode(takesParam, adding, letters[1..], if takes then params[1..] else params)
      case Malformed => Malformed
      case Changes(rest) => Changes([Change(adding, letters[0], param)] + rest)
  }

  /** A change has a parameter exactly when its letter takes one under its sign. */
  ghost predicate ParamsAsRequired(takesParam: (char, bool) -> bool, changes: seq<Change>)
  {
    forall i :: 0 <= i < |changes| ==>
      (changes[i].param != "" <==> takesParam(changes[i].letter, changes[i].adding))
  }

  lemma DecodeSign(takesParam: (char, bool) -> bool, before: bool, adding: bool, tail: string, params: seq<string>)
    ensures Decode(takesParam, before, [Sign(adding)] + tail, params) == Decode(takesParam, adding, tail, params)
  {
    assert ([Sign(adding)] + tail)[1..] == tail;
  }

  lemma DecodeChange(takesParam: (char, bool) -> bool, c: Change, tail: string, params: seq<string>, rest: seq<Change>)
    requires ProperLetters([c]) && ParamsAsRequired(takesParam, [c])
    requires Decode(takesParam, c.adding, tail, params) == Changes(rest)
    ensures Decode(takesParam, c.adding, [c.letter] + tail, Params([c]) + params) == Changes([c] + rest)
  {
    assert [c][0] == c;
    assert ([c.letter] + tail)[1..] == tail;
    if c.param != "" {
      assert Params([c]) == [c.param];
      assert (Params([c]) + params)[1..] == params;
    } else {
      assert Params([c]) + params == params;
    }
  }

  /** Decoding what was printed gives the changes back, whatever sign was in force before. */
  lemma {:induction false} DecodeLetters(takesParam: (char, bool) -> bool, pm: char, before: bool, changes: seq<Change>)
    requires ProperLetters(changes) && ParamsAsRequired(takesParam, changes)
    requires pm == '\0' || pm == Sign(before)
    ensures Decode(takesParam, before, Letters(pm, changes), Params(changes)) == Changes(changes)
    decreases changes
  {
    if changes != [] {
      var c, rest := changes[0], changes[1..];
      var needed := Sign(c.adding);
      assert forall i :: 0 <= i < |rest| ==> rest[i] == changes[i + 1];
      DecodeLetters(takesParam, needed, c.adding, rest);
      assert [c] + rest == changes;
      assert Params(changes) == Params([c]) + Params(rest);
      DecodeChange(takesParam, c, Letters(needed, rest), Params(rest), rest);
      var printed := [c.letter] + Letters(needed, rest);
      if needed != pm {
        assert Letters(pm, changes) == [needed] + printed;
        DecodeSign(takesParam, before, c.adding, printed, Params(changes));
      } else {
        assert Letters(pm, changes) == printed;
      }
    }
  }

  // ----- how the room of a line grows

  lemma {:induction false} LettersAppend(pm: char, front: seq<Change>, back: seq<Change>)
    ensures Letters(pm, front + back) == Letters(pm, front) + Letters(LastSign(pm, front), back)
    decreases front
  {
    if front == [] {
      assert front + back == back;
    } else {
      var needed := Sign(front[0].adding);
      assert (front + back)[1..] == front[1..] + back;
      LettersAppend(needed, front[1..], back);
      assert LastSign(needed, front[1..]) == LastSign(pm, front);
      var sign, letter := if needed != pm then [needed] else "", [front[0].letter];
      var a, b := Letters(needed, front[1..]), Letters(LastSign(pm, front), back);
      assert sign + (letter + (a + b)) == (sign + (letter + a)) + b;
    }
  }

  lemma {:induction false} ParamsAppend(front: seq<Change>, back: seq<Change>)
    ensures Params(front + back) == Params(front) + Params(back)
  {
    if front == [] {
      assert front + back == back;
    } else {
      assert (front + back)[1..] == front[1..] + back;
      ParamsAppend(front[1..], back);
    }
  }

  /** Changing the sign in force costs at most one extra letter. */
  lemma SignCost(pm: char, other: char, changes: seq<Change>)
    requires changes != []
    ensures |Letters(pm, changes)| <= |Letters(other, changes)| + 1
  {
  }

  /** What one more change adds to a line. */
  lemma RoomOneMore(changes: seq<Change>, c: Change)
    ensures LastSign('\0', changes + [c]) == Sign(c.adding)
    ensures LastSign('\0', changes) != Sign(c.adding) ==>
              Letters('\0', changes + [c]) == Letters('\0', changes) + [Sign(c.adding)] + [c.letter]
    ensures LastSign('\0', changes) == Sign(c.adding) ==> Letters('\0', changes + [c]) == Letters('\0', changes) + [c.letter]
    ensures Params(changes + [c]) == if c.param == "" then Params(changes) else Params(changes) + [c.param]
    ensures SeparatedRoom(Params(changes + [c])) == SeparatedRoom(Params(changes)) + (if c.param == "" then 0 else |c.param| + 1)
  {
    LettersAppend('\0', changes, [c]);
    ParamsAppend(changes, [c]);
    assert Letters(Sign(c.adding), []) == "" && Params([]) == [];
    SeparatedRoomAppend(Params(changes), Params([c]));
  }

  lemma SliceOneMore(list: seq<Change>, begin: nat, i: nat)
    requires begin <= i < |list|
    ensures list[begin..i + 1] == list[begin..i] + [list[i]]
  {
  }

  /** Dropping the last or the first change never makes a line longer. */
  lemma RoomShrinks(changes: seq<Change>)
    requires changes != []
    ensures Room(changes[..|changes| - 1]) <= Room(changes)
    ensures Room(changes[1..]) <= Room(changes)
  {
    var n := |changes|;
    assert changes[..n - 1] + [changes[n - 1]] == changes;
    RoomOneMore(changes[..n - 1], changes[n - 1]);
    assert [changes[0]] + changes[1..] == changes;
    LettersAppend('\0', [changes[0]], changes[1..]);
    ParamsAppend([changes[0]], changes[1..]);
    SeparatedRoomAppend(Params([changes[0]]), Params(changes[1..]));
    assert |Letters('\0', [changes[0]])| == 2;
    if |changes| > 1 {
      SignCost('\0', LastSign('\0', [changes[0]]), changes[1..]);
    }
  }

  lemma {:induction false} RoomOfPart(changes: seq<Change>, i: nat, j: nat)
    requires i <= j <= |changes|
    ensures Room(changes[i..j]) <= Room(changes)
    decreases |changes|
  {
    hide Room;
    if i > 0 {
      RoomShrinks(changes);
      RoomOfPart(changes[1..], i - 1, j - 1);
      assert changes[1..][i - 1..j - 1] == changes[i..j];
    } else if j < |changes| {
      var shorter := changes[..|changes| - 1];
      RoomShrinks(changes);
      RoomOfPart(shorter, i, j);
      assert shorter[i..j] == changes[i..j];
    } else {
      assert changes[i..j] == changes;
    }
  }

  /** The line limit as a property of lines. */
  ghost function OnOneLine(): seq<Change> -> bool
  {
    (changes: seq<Change>) => FitsWithin(MAX_LINE, changes)
  }

  lemma OnOneLineIsSegmentClosed()
    ensures SegmentClosed(OnOneLine())
  {
    forall s: seq<Change>, i, j | 0 <= i <= j <= |s| && OnOneLine()(s)
      ensures OnOneLine()(s[i..j])
    {
      RoomOfPart(s, i, j);
    }
  }

  // ----- the two loops

  /** What the printing loop holds after some changes: their letters, ending in a letter, their parameters' room and the sign in force. */
  ghost predicate Printed(done: seq<Change>, ret: string, paramlength: nat, pm: char)
  {
    && ret == Letters('\0', done)
    && paramlength == SeparatedRoom(Params(done))
    && pm == LastSign('\0', done)
    && (ret == "" <==> done == [])
    && (ret != "" ==> ret[|ret| - 1] != '+' && ret[|ret| - 1] != '-')
  }

  lemma PrintedOneMore(done: seq<Change>, ret: string, paramlength: nat, pm: char, c: Change)
    requires Printed(done, ret, paramlength, pm) && c.letter != '+' && c.letter != '-'
    ensures var signed := if pm != Sign(c.adding) then ret + [Sign(c.adding)] else ret;
            Printed(done + [c], signed + [c.letter], paramlength + (if c.param == "" then 0 else |c.param| + 1), Sign(c.adding))
  {
    RoomOneMore(done, c);
  }

  /**
   Prints changes from `begin` on until the next one would exceed `maxlinelen`, and returns the
   letters with the position of the first change left out.
   */
  method ToModeLetters(list: seq<Change>, maxlinelen: nat, begin: nat) returns (ret: string, lastit: nat)
    requires ProperLetters(list) && begin <= |list|
    ensures begin <= lastit <= |list|
    ensures ret == Letters('\0', list[begin..lastit])
    ensures FitsWithin(maxlinelen, list[begin..lastit])
    ensures lastit < |list| ==> !FitsWithin(maxlinelen, list[begin..lastit + 1])
  {
    assert Printed([], "", 0, '\0');
    hide Letters, Params, SeparatedRoom;
    ret := "";
    var paramlength: nat := 0;
    var outputPm := '\0';
    var i := begin;
    ghost var done: seq<Change> := [];
    while i < |list|
      invariant begin <= i <= |list| && done == list[begin..i]
      invariant Printed(done, ret, paramlength, outputPm) && |ret| + paramlength <= maxlinelen
    {
      var item := list[i];
      ghost var more := done + [item];
      SliceOneMore(list, begin, i);
      PrintedOneMore(done, ret, paramlength, outputPm, item);
      ghost var printed := ret;
      var neededPm := Sign(item.adding);
      if neededPm != outputPm {
        outputPm := neededPm;
        ret := ret + [outputPm];
      }
      if item.param != "" {
        paramlength := paramlength + |item.param| + 1;
      }
      assert Printed(more, ret + [item.letter], paramlength, outputPm);
      if |ret| + 1 + paramlength > maxlinelen {
        if ret[|ret| - 1] == '+' || ret[|ret| - 1] == '-' {
          ret := ret[..|ret| - 1];
        }
        assert ret == printed;
        break;
      }
      ret := ret + [item.letter];
      i, done := i + 1, more;
    }
    lastit := i;
  }

  lemma NoParams()
    ensures Params([]) == []
  {
  }

  /** Appends the parameters of the changes in a range. */
  method PushModeParams(list: seq<Change>, begin: nat, end: nat, params: seq<string>) returns (pushed: seq<string>)
    requires begin <= end <= |list|
    ensures pushed == params + Params(list[begin..end])
  {
    hide Letters, Params, SeparatedRoom;
    assert list[begin..begin] == [];
    NoParams();
    pushed := params;
    for i := begin to end
      invariant pushed == params + Params(list[begin..i])
    {
      SliceOneMore(list, begin, i);
      RoomOneMore(list[begin..i], list[i]);
      if list[i].param != "" {
        pushed := pushed + [list[i].param];
      }
    }
  }

  /** The changes a message carries. */
  function Carried(list: seq<Change>, m: Message): seq<Change>
    requires m.begin <= m.end <= |list|
  {
    list[m.begin..m.end]
  }

  /** What the message constructor produces for the changes from `begin` on. */
  ghost predicate IsMessageFrom(target: string, list: seq<Change>, begin: nat, m: Message)
  {
    && m.begin == begin <= m.end <= |list|
    && m.params == [target, Letters('\0', Carried(list, m))] + Params(Carried(list, m))
    && FitsWithin(MAX_LINE, Carried(list, m))
    && (m.end < |list| ==> !FitsWithin(MAX_LINE, list[m.begin..m.end + 1]))
  }

  method NewMessage(target: string, list: seq<Change>, begin: nat) returns (m: Message)
    requires ProperLetters(list) && begin <= |list|
    ensures IsMessageFrom(target, list, begin, m)
  {
    var letters, end := ToModeLetters(list, MAX_LINE, begin);
    var params := PushModeParams(list, begin, end, [target, letters]);
    m := Message(begin, end, params);
  }

  /** Every parameter can be sent on some line. */
  predicate Sendable(list: seq<Change>)
  {
    forall i :: 0 <= i < |list| ==> |list[i].param| <= MAX_SENDABLE_PARAM
  }

  lemma RoomOfOne(c: Change)
    ensures Room([c]) == 2 + (if c.param == "" then 0 else |c.param| + 1)
  {
    RoomOneMore([], c);
    assert [] + [c] == [c];
  }

  /**
   A message built from `begin` carries no change at all exactly when the parameter there is too
   long for a line of its own.
   */
  lemma MessageStuckIff(target: string, list: seq<Change>, begin: nat, m: Message)
    requires begin < |list| && IsMessageFrom(target, list, begin, m)
    ensures m.end == begin <==> |list[begin].param| > 447
  {
    RoomOfOne(list[begin]);
    assert list[begin..begin + 1] == [list[begin]];
    if m.end > begin {
      RoomOfPart(list[begin..m.end], 0, 1);
      assert list[begin..m.end][0..1] == [list[begin]];
    }
  }

  /** Parameters within the documented limit can all be sent. */
  lemma DocumentedLimitIsSendable(list: seq<Change>)
    requires forall i :: 0 <= i < |list| ==> |list[i].param| <= MODE_PARAM_MAX
    ensures Sendable(list) && MODE_PARAM_MAX == 250
  {
  }

  /** The messages follow one another without a gap, from `begin` to `end`. */
  ghost predicate Consecutive(target: string, list: seq<Change>, messages: seq<Message>, begin: nat, end: nat)
  {
    if messages == [] then begin == end
    else
      && begin < messages[0].end
      && IsMessageFrom(target, list, begin, messages[0])
      && Consecutive(target, list, messages[1..], messages[0].end, end)
  }

  /** The messages that a loop over the whole list sends. */
  ghost predicate Complete(target: string, list: seq<Change>, messages: seq<Message>)
  {
    Consecutive(target, list, messages, 0, |list|)
  }

  /** There is a message from every position on: extend it for as long as it fits. */
  lemma {:induction false} MessageFrom(target: string, list: seq<Change>, begin: nat, end: nat) returns (m: Message)
    requires begin <= end <= |list| && FitsWithin(MAX_LINE, list[begin..end])
    ensures IsMessageFrom(target, list, begin, m)
    decreases |list| - end
  {
    if end < |list| && FitsWithin(MAX_LINE, list[begin..end + 1]) {
      m := MessageFrom(target, list, begin, end + 1);
    } else {
      m := Message(begin, end, [target, Letters('\0', list[begin..end])] + Params(list[begin..end]));
    }
  }

  lemma {:induction false} SendableCompletes(target: string, list: seq<Change>, begin: nat) returns (messages: seq<Message>)
    requires Sendable(list) && begin <= |list|
    ensures Consecutive(target, list, messages, begin, |list|)
    decreases |list| - begin
  {
    if begin == |list| {
      messages := [];
    } else {
      assert list[begin..begin] == [];
      var m := MessageFrom(target, list, begin, begin);
      MessageStuckIff(target, list, begin, m);
      var rest := SendableCompletes(target, list, m.end);
      messages := [m] + rest;
      assert messages[1..] == rest;
    }
  }

  lemma {:induction false} CompletedIsSendable(target: string, list: seq<Change>, messages: seq<Message>, begin: nat, k: nat)
    requires begin <= k < |list| && Consecutive(target, list, messages, begin, |list|)
    ensures |list[k].param| <= MAX_SENDABLE_PARAM
    decreases messages
  {
    var m := messages[0];
    if k < m.end {
      RoomOfPart(Carried(list, m), k - begin, k - begin + 1);
      assert Carried(list, m)[k - begin..k - begin + 1] == [list[k]];
      RoomOfOne(list[k]);
    } else {
      CompletedIsSendable(target, list, messages[1..], m.end, k);
    }
  }

  /**
   The splitting loop, which sends one message after the other until it is at the end of the list,
   can get there if and only if no parameter exceeds 447 characters.
   */
  lemma SplittingCompletesIff(target: string, list: seq<Change>)
    ensures (exists messages :: Complete(target, list, messages)) <==> forall i :: 0 <= i < |list| ==> |list[i].param| <= 447
  {
    if messages :| Complete(target, list, messages) {
      forall k | 0 <= k < |list|
        ensures |list[k].param| <= MAX_SENDABLE_PARAM
      {
        CompletedIsSendable(target, list, messages, 0, k);
      }
    }
    if Sendable(list) {
      var messages := SendableCompletes(target, list, 0);
      assert Complete(target, list, messages);
    }
  }

  /** The removal of a channel key with too long a parameter, as another server may send it, keeps the loop from ending. */
  lemma LongKeyRemovalNeverEnds(target: string, param: string)
    requires |param| > MAX_SENDABLE_PARAM
    ensures !exists messages :: Complete(target, [Change(false, 'k', param)], messages)
  {
    SplittingCompletesIff(target, [Change(false, 'k', param)]);
    assert [Change(false, 'k', param)][0].param == param;
  }

  lemma {:induction false} ConsecutiveAppend(target: string, list: seq<Change>, messages: seq<Message>, begin: nat, end: nat, m: Message)
    requires Consecutive(target, list, messages, begin, end)
    requires end < m.end && IsMessageFrom(target, list, end, m)
    ensures Consecutive(target, list, messages + [m], begin, m.end)
  {
    if messages == [] {
      assert messages + [m] == [m];
      assert Consecutive(target, list, [], m.end, m.end);
    } else {
      assert (messages + [m])[1..] == messages[1..] + [m];
      ConsecutiveAppend(target, list, messages[1..], messages[0].end, end, m);
    }
  }

  /** Builds as many messages as the change list needs. */
  method BuildMessages(target: string, list: seq<Change>) returns (messages: seq<Message>)
    requires ProperLetters(list) && Sendable(list)
    ensures Complete(target, list, messages)
  {
    messages := [];
    var i := 0;
    while i != |list|
      invariant 0 <= i <= |list|
      invariant Consecutive(target, list, messages, 0, i)
      decreases |list| - i
    {
      var m := NewMessage(target, list, i);
      MessageStuckIff(target, list, i, m);
      ConsecutiveAppend(target, list, messages, 0, i, m);
      messages := messages + [m];
      i := m.end;
    }
  }

  // ----- what the messages of a change list satisfy

  /** The changes of each message. */
  ghost function Lines(list: seq<Change>, messages: seq<Message>): seq<seq<Change>>
  {
    if messages == [] then []
    else [if messages[0].begin <= messages[0].end <= |list| then Carried(list, messages[0]) else []] + Lines(list, messages[1..])
  }

  /** What a client reads from the messages, one after the other. */
  function DecodeAll(takesParam: (char, bool) -> bool, messages: seq<Message>): Decoded
  {
    if messages == [] then Changes([])
    else if |messages[0].params| < 2 then Malformed
    else
      match Decode(takesParam, true, messages[0].params[1], messages[0].params[2..])
      case Malformed => Malformed
      case Changes(first) =>
        match DecodeAll(takesParam, messages[1..])
        case Malformed => Malformed
        case Changes(rest) => Changes(first + rest)
  }

  /** Reading all messages gives back the change list: each change once, and in order. */
  lemma {:induction false} MessagesRoundTrip(takesParam: (char, bool) -> bool, target: string, list: seq<Change>,
                                             messages: seq<Message>, begin: nat)
    requires ProperLetters(list) && ParamsAsRequired(takesParam, list)
    requires begin <= |list| && Consecutive(target, list, messages, begin, |list|)
    ensures DecodeAll(takesParam, messages) == Changes(list[begin..])
  {
    if messages != [] {
      var m := messages[0];
      DecodeLetters(takesParam, '\0', true, Carried(list, m));
      assert m.params[2..] == Params(Carried(list, m));
      MessagesRoundTrip(takesParam, target, list, messages[1..], m.end);
      assert list[begin..] == Carried(list, m) + list[m.end..];
    }
  }

  lemma MessageIsFullLine(target: string, list: seq<Change>, begin: nat, m: Message)
    requires IsMessageFrom(target, list, begin, m)
    ensures list[begin..] == Carried(list, m) + list[m.end..] && OnOneLine()(Carried(list, m))
    ensures m.end < |list| ==> !OnOneLine()(Carried(list, m) + [list[m.end..][0]])
  {
    if m.end < |list| {
      assert list[m.begin..m.end + 1] == Carried(list, m) + [list[m.end..][0]];
    }
  }

  /** The messages carry a greedy division of the rest of the list, each line of it within the limit. */
  lemma {:induction false} LinesAreGreedy(target: string, list: seq<Change>, messages: seq<Message>, begin: nat)
    requires begin <= |list| && Consecutive(target, list, messages, begin, |list|)
    ensures var lines := Lines(list, messages);
            && |lines| == |messages| && Flatten(lines) == list[begin..]
            && NoEmptyLine(lines) && AllFit(OnOneLine(), lines) && Maximal(OnOneLine(), lines)
  {
    hide OnOneLine, FitsWithin, Letters, Params, Flatten, Maximal;
    assert Flatten<Change>([]) == [] && Maximal(OnOneLine(), []) by {
      NothingIsGreedy(OnOneLine());
    }
    if messages != [] {
      var m := messages[0];
      LinesAreGreedy(target, list, messages[1..], m.end);
      MessageIsFullLine(target, list, begin, m);
      PrependLine(OnOneLine(), Carried(list, m), Lines(list, messages[1..]));
    }
  }

  /** No division of the change list into lines within the limit has fewer lines than there are messages. */
  lemma MessagesAreFewest(target: string, list: seq<Change>, messages: seq<Message>, other: seq<seq<Change>>)
    requires Complete(target, list, messages)
    requires Flatten(other) == list && forall i :: 0 <= i < |other| ==> Room(other[i]) <= 450
    ensures |messages| <= |other|
  {
    LinesAreGreedy(target, list, messages, 0);
    assert list[0..] == list;
    OnOneLineIsSegmentClosed();
    GreedyIsOptimal(OnOneLine(), Lines(list, messages), other);
  }

  /** Each message's letters and parameters, with a separator for each parameter, stay within the limit. */
  lemma {:induction false} MessagesKeepToLimit(target: string, list: seq<Change>, messages: seq<Message>, begin: nat, k: nat)
    requires Consecutive(target, list, messages, begin, |list|) && k < |messages|
    ensures |messages[k].params| >= 2
    ensures messages[k].params[0] == target
    ensures 0 < |messages[k].params[1]| && |messages[k].params[1]| + SeparatedRoom(messages[k].params[2..]) <= 450
  {
    var m := messages[0];
    assert m.params[2..] == Params(Carried(list, m));
    if k > 0 {
      MessagesKeepToLimit(target, list, messages[1..], m.end, k - 1);
    }
  }
}
