/**
 The replies to CAP LS and CAP LIST, which spread the listed capabilities over several lines.

 The loop here decides before appending and sends the current line even when it is empty.  It is
 proved to pack exactly as the numeric builders do, but for an empty line in front if the first
 capability fills a line on its own.
 */
module CapListing {
  import opened Packing
  import NumericBuilder
  import Serializer
  import opened Collections

  /** One CAP line; the asterisk announces that more lines follow. */
  datatype Reply = Reply(text: string, asterisk: bool)

  /** The text of a line: a space goes before an entry only if the line holds something. */
  function Text(entries: seq<string>): string
  {
    if entries == [] then ""
    else
      var line, last := Text(entries[..|entries| - 1]), entries[|entries| - 1];
      (if line == "" then line else line + " ") + last
  }

  lemma TextOneMore(entries: seq<string>, entry: string)
    ensures var line := Text(entries); Text(entries + [entry]) == (if line == "" then line else line + " ") + entry
  {
    assert (entries + [entry])[..|entries|] == entries;
  }

  /** Without empty entries the text of a line is its entries joined by spaces. */
  lemma {:induction false} TextIsJoin(entries: seq<string>)
    requires "" !in entries
    ensures Text(entries) == NumericBuilder.Join(' ', entries) && (Text(entries) == "" <==> entries == [])
    decreases entries
  {
    if entries != [] {
      var front, last := entries[..|entries| - 1], entries[|entries| - 1];
      TextIsJoin(front);
      assert entries == front + [last] && last in entries;
      if front == [] {
        assert entries == [last];
      } else {
        JoinOneMore(front, last);
      }
    }
  }

  /** The replies that carry the given groups: only the last one goes without the asterisk. */
  function Replies(groups: seq<seq<string>>, asterisk: bool): seq<Reply>
  {
    seq(|groups|, i requires 0 <= i < |groups| => Reply(Text(groups[i]), asterisk && i < |groups| - 1))
  }

  lemma JoinOneMore(entries: seq<string>, entry: string)
    requires entries != []
    ensures NumericBuilder.Join(' ', entries + [entry]) == NumericBuilder.Join(' ', entries) + " " + entry
  {
    NumericBuilder.TerminatedIsJoin(' ', entries);
    NumericBuilder.TerminatedIsJoin(' ', entries + [entry]);
    NumericBuilder.TerminatedAppend(' ', entries, entry);
    var a, b := NumericBuilder.Join(' ', entries + [entry]), NumericBuilder.Join(' ', entries) + " " + entry;
    assert a + " " == b + " ";
    assert (a + " ")[..|a|] == a && (b + " ")[..|b|] == b;
  }

  /** One more capability: the current line is sent first if the capability would fill it. */
  function Append(p: NumericBuilder.Packed, maxline: nat, cap: string): NumericBuilder.Packed
  {
    if |Text(p.pending)| + |cap| >= maxline then NumericBuilder.Packed(p.groups + [p.pending], [cap])
    else NumericBuilder.Packed(p.groups, p.pending + [cap])
  }

  function AppendAll(maxline: nat, caps: seq<string>): NumericBuilder.Packed
  {
    if caps == [] then NumericBuilder.Packed([], [])
    else Append(AppendAll(maxline, caps[..|caps| - 1]), maxline, caps[|caps| - 1])
  }

  /** The groups of a whole listing: what is left is sent at the end in any case. */
  function Lines(maxline: nat, caps: seq<string>): seq<seq<string>>
  {
    var p := AppendAll(maxline, caps);
    p.groups + [p.pending]
  }

  lemma FlattenOneMore(groups: seq<seq<string>>, group: seq<string>)
    ensures Flatten(groups + [group]) == Flatten(groups) + group
  {
    FlattenAppend(groups, [group]);
    assert Flatten([group]) == group + Flatten([]);
  }

  lemma AppendKeeps(p: NumericBuilder.Packed, maxline: nat, cap: string)
    ensures var q := Append(p, maxline, cap); Flatten(q.groups) + q.pending == Flatten(p.groups) + p.pending + [cap]
  {
    hide Flatten;
    FlattenOneMore(p.groups, p.pending);
  }

  lemma {:induction false} AppendAllKeeps(maxline: nat, caps: seq<string>)
    ensures var p := AppendAll(maxline, caps); Flatten(p.groups) + p.pending == caps
    decreases caps
  {
    hide Append;
    if caps != [] {
      var front := caps[..|caps| - 1];
      AppendAllKeeps(maxline, front);
      AppendKeeps(AppendAll(maxline, front), maxline, caps[|caps| - 1]);
    }
  }

  /** The lines hold every capability exactly once and in order. */
  lemma LinesKeepCaps(maxline: nat, caps: seq<string>)
    ensures Flatten(Lines(maxline, caps)) == caps
  {
    AppendAllKeeps(maxline, caps);
    var p := AppendAll(maxline, caps);
    FlattenOneMore(p.groups, p.pending);
  }

  /** The empty line in front, if the first capability fills a line on its own. */
  function EmptyFirst(maxline: nat, caps: seq<string>): seq<seq<string>>
  {
    if caps != [] && |caps[0]| >= maxline then [[]] else []
  }

  lemma AppendIsAddEntry(p: NumericBuilder.Packed, q: NumericBuilder.Packed, extra: seq<seq<string>>, maxline: nat, cap: string)
    requires p == NumericBuilder.Packed(extra + q.groups, q.pending) && q.pending != [] && "" !in q.pending
    ensures var q' := NumericBuilder.AddEntry(q, maxline, false, cap);
            Append(p, maxline, cap) == NumericBuilder.Packed(extra + q'.groups, q'.pending)
  {
    hide Text, NumericBuilder.Join, NumericBuilder.Terminated;
    TextIsJoin(q.pending);
    NumericBuilder.TerminatedIsJoin(' ', q.pending);
    assert extra + (q.groups + [q.pending]) == (extra + q.groups) + [q.pending];
  }

  /** The loop packs as a numeric builder does, after that empty line. */
  lemma {:induction false} AppendAllIsAddEntries(maxline: nat, caps: seq<string>)
    requires "" !in caps
    ensures var q := NumericBuilder.AddEntries(NumericBuilder.Packed([], []), maxline, false, caps);
            AppendAll(maxline, caps) == NumericBuilder.Packed(EmptyFirst(maxline, caps) + q.groups, q.pending)
    decreases caps
  {
    if |caps| == 1 {
      assert caps[..0] == [] && Text([]) == "";
      assert AppendAll(maxline, []) == NumericBuilder.Packed([], []);
      assert [] + [caps[0]] == [caps[0]];
    } else if |caps| > 1 {
      hide Append, NumericBuilder.AddEntry;
      var front, last := caps[..|caps| - 1], caps[|caps| - 1];
      assert forall c :: c in front ==> c in caps;
      AppendAllIsAddEntries(maxline, front);
      PendingEntries(maxline, front);
      var q := NumericBuilder.AddEntries(NumericBuilder.Packed([], []), maxline, false, front);
      AppendIsAddEntry(AppendAll(maxline, front), q, EmptyFirst(maxline, caps), maxline, last);
    }
  }

  lemma PendingEntries(maxline: nat, caps: seq<string>)
    requires caps != [] && "" !in caps
    ensures var q := NumericBuilder.AddEntries(NumericBuilder.Packed([], []), maxline, false, caps); q.pending != [] && "" !in q.pending
  {
    NumericBuilder.AddEntriesPacks(maxline, false, caps);
    var q := NumericBuilder.AddEntries(NumericBuilder.Packed([], []), maxline, false, caps);
    assert forall e :: e in q.pending ==> e in Flatten(q.groups) + q.pending;
  }

  /** The lines of a listing are the messages of a numeric builder with the same limit, after the empty line. */
  lemma LinesAreGroups(maxline: nat, caps: seq<string>)
    requires caps != [] && "" !in caps
    ensures Lines(maxline, caps) == EmptyFirst(maxline, caps) + NumericBuilder.Groups(maxline, false, caps)
  {
    hide AppendAll, NumericBuilder.AddEntries;
    AppendAllIsAddEntries(maxline, caps);
    PendingEntries(maxline, caps);
    var q := NumericBuilder.AddEntries(NumericBuilder.Packed([], []), maxline, false, caps);
    var extra := EmptyFirst(maxline, caps);
    assert (extra + q.groups) + [q.pending] == extra + (q.groups + [q.pending]);
  }

  /** A line without any capability is sent if and only if there are none, or the first one fills a line on its own. */
  lemma EmptyLineIff(maxline: nat, caps: seq<string>)
    requires "" !in caps
    ensures [] in Lines(maxline, caps) <==> caps == [] || |caps[0]| >= maxline
  {
    if caps == [] {
      assert Lines(maxline, []) == [[]];
    } else {
      LinesAreGroups(maxline, caps);
      NumericBuilder.GroupsKeepEntries(maxline, false, caps);
      hide Lines, NumericBuilder.Groups;
      assert [] !in NumericBuilder.Groups(maxline, false, caps);
      assert |caps[0]| >= maxline ==> EmptyFirst(maxline, caps)[0] == [];
    }
  }

  lemma FlattenHas(lines: seq<seq<string>>, i: nat, e: string)
    requires i < |lines| && e in lines[i]
    ensures e in Flatten(lines)
  {
    FlattenContains(lines, e);
  }

  /** Every line is within the limit if and only if every capability is. */
  lemma LinesFitIff(maxline: nat, caps: seq<string>)
    requires caps != [] && "" !in caps
    ensures (forall i :: 0 <= i < |Lines(maxline, caps)| ==> |Text(Lines(maxline, caps)[i])| <= maxline) <==> forall c :: c in caps ==> |c| <= maxline
  {
    hide NumericBuilder.Groups, Lines, Text, Flatten;
    LinesAreGroups(maxline, caps);
    NumericBuilder.GroupsFitIff(maxline, false, caps);
    NumericBuilder.GroupsKeepEntries(maxline, false, caps);
    var lines, groups, extra := Lines(maxline, caps), NumericBuilder.Groups(maxline, false, caps), EmptyFirst(maxline, caps);
    EmptyText();
    forall i | 0 <= i < |groups|
      ensures |Text(groups[i])| <= maxline <==> NumericBuilder.OnOneMessage(maxline)(groups[i])
      ensures lines[|extra| + i] == groups[i]
    {
      GroupText(maxline, groups, i);
    }
    if forall i :: 0 <= i < |lines| ==> |Text(lines[i])| <= maxline {
      forall i | 0 <= i < |groups|
        ensures NumericBuilder.OnOneMessage(maxline)(groups[i])
      {
        assert |Text(lines[|extra| + i])| <= maxline;
      }
    }
    if forall c :: c in caps ==> |c| <= maxline {
      forall i | 0 <= i < |lines|
        ensures |Text(lines[i])| <= maxline
      {
        if i < |extra| {
          assert lines[i] == [];
        } else {
          assert NumericBuilder.OnOneMessage(maxline)(groups[i - |extra|]);
        }
      }
    }
  }

  lemma EmptyText()
    ensures Text([]) == ""
  {
  }

  lemma GroupText(maxline: nat, groups: seq<seq<string>>, i: nat)
    requires i < |groups| && "" !in Flatten(groups)
    ensures |Text(groups[i])| <= maxline <==> NumericBuilder.OnOneMessage(maxline)(groups[i])
  {
    forall e | e in groups[i]
      ensures e in Flatten(groups)
    {
      FlattenHas(groups, i, e);
    }
    TextIsJoin(groups[i]);
    NumericBuilder.FitsIsTextLength(maxline, ' ', groups[i]);
  }

  /** No division into lines within the limit has fewer lines, apart from the empty line in front. */
  lemma LinesArePacked(maxline: nat, caps: seq<string>, other: seq<seq<string>>)
    requires caps != [] && "" !in caps
    requires Flatten(other) == caps && forall i :: 0 <= i < |other| ==> |NumericBuilder.Join(' ', other[i])| <= maxline
    ensures |Lines(maxline, caps)| <= |other| + |EmptyFirst(maxline, caps)|
  {
    hide NumericBuilder.Groups, Lines;
    LinesAreGroups(maxline, caps);
    forall i | 0 <= i < |other|
      ensures NumericBuilder.FitsWithin(maxline, other[i])
    {
      NumericBuilder.FitsIsTextLength(maxline, ' ', other[i]);
    }
    NumericBuilder.GroupsAreFewest(maxline, false, caps, other);
  }

  /** The room of a line: what the server name, the nick, the subcommand and the rest of the message leave of it. */
  function MaxLine(limit: nat, serverName: string, nick: string, subcmd: string): nat
  {
    NumericBuilder.RoomLeft(limit, |serverName| + |nick| + |subcmd| + 11)
  }

  /** The whole line that carries a reply. */
  function Line(source: string, nick: string, subcmd: string, reply: Reply): string
  {
    Serializer.Line(source, "CAP", [nick, subcmd] + (if reply.asterisk then ["*"] else []) + [reply.text])
  }

  lemma LineLength(source: string, nick: string, subcmd: string, reply: Reply)
    ensures |Line(source, nick, subcmd, reply)| == |source| + |nick| + |subcmd| + |reply.text| + if reply.asterisk then 11 else 9
  {
    var stars := if reply.asterisk then ["*"] else [];
    SeparatedRoomAppend([nick, subcmd] + stars, [reply.text]);
    SeparatedRoomAppend([nick, subcmd], stars);
    SeparatedRoomAppend([nick], [subcmd]);
    assert [nick] + [subcmd] == [nick, subcmd];
    assert SeparatedRoom([nick]) == |nick| + 1 && SeparatedRoom([subcmd]) == |subcmd| + 1;
    assert SeparatedRoom([reply.text]) == |reply.text| + 1 && SeparatedRoom(["*"]) == 2;
    Serializer.LineLength(source, "CAP", [nick, subcmd] + stars + [reply.text]);
  }

  /**
   A reply without the asterisk arrives whole if and only if its text keeps to the room of a line;
   one with the asterisk needs two characters more, which that room does not leave.  The room is
   computed from the configured server name, and the line starts with the name that is shown.
   */
  lemma ReplyIsWholeIff(limit: nat, serverName: string, source: string, nick: string, subcmd: string, reply: Reply)
    requires |serverName| + |nick| + |subcmd| + 11 <= limit < NumericBuilder.SIZE_RANGE
    ensures var line := Line(source, nick, subcmd, reply);
            Serializer.Serialize(limit, line) == line + "\r\n" <==>
            |source| + |reply.text| + (if reply.asterisk then 2 else 0) <= |serverName| + MaxLine(limit, serverName, nick, subcmd)
  {
    NumericBuilder.RoomLeftIff(limit, |serverName| + |nick| + |subcmd| + 11);
    LineLength(source, nick, subcmd, reply);
    Serializer.WholeIff(limit, Line(source, nick, subcmd, reply));
  }

  lemma FirstTwoLines(maxline: nat, a: string, b: string)
    requires a != "" && b != "" && |a| < maxline && |a| + |b| >= maxline
    ensures Lines(maxline, [a, b]) == [[a], [b]]
  {
    assert [a, b][..1] == [a] && [a][..0] == [];
    assert Text([]) == "";
    TextOneMore([], a);
    assert [] + [a] == [a];
    assert AppendAll(maxline, []) == NumericBuilder.Packed([], []);
    assert AppendAll(maxline, [a]) == NumericBuilder.Packed([], [a]);
    assert AppendAll(maxline, [a, b]) == NumericBuilder.Packed([[a]], [b]);
  }

  /** Two capabilities, the first of which leaves one character of the room: its line is cut. */
  lemma AsteriskLineIsCut(limit: nat, serverName: string, nick: string, subcmd: string, a: string, b: string)
    requires |serverName| + |nick| + |subcmd| + 11 + 2 <= limit < NumericBuilder.SIZE_RANGE && b != ""
    requires |a| == MaxLine(limit, serverName, nick, subcmd) - 1
    ensures var first := Replies(Lines(MaxLine(limit, serverName, nick, subcmd), [a, b]), true)[0];
            var line := Line(serverName, nick, subcmd, first);
            first == Reply(a, true) && Serializer.Serialize(limit, line) != line + "\r\n"
  {
    var maxline := MaxLine(limit, serverName, nick, subcmd);
    NumericBuilder.RoomLeftIff(limit, |serverName| + |nick| + |subcmd| + 11);
    FirstTwoLines(maxline, a, b);
    TextOneMore([], a);
    assert [] + [a] == [a] && Text([]) == "";
    ReplyIsWholeIff(limit, serverName, serverName, nick, subcmd, Reply(a, true));
  }

  /** The parts between spaces of all texts that are not empty. */
  function ReadBack(replies: seq<Reply>): seq<string>
  {
    if replies == [] then []
    else (if replies[0].text == "" then [] else NumericBuilder.Split(' ', replies[0].text)) + ReadBack(replies[1..])
  }

  lemma {:induction false} ReadBackGroups(replies: seq<Reply>, groups: seq<seq<string>>)
    requires |replies| == |groups| && forall i :: 0 <= i < |groups| ==> replies[i].text == Text(groups[i])
    requires forall c :: c in Flatten(groups) ==> c != "" && ' ' !in c
    ensures ReadBack(replies) == Flatten(groups)
    decreases groups
  {
    if groups != [] {
      assert forall c :: c in groups[0] ==> c in Flatten(groups);
      assert forall c :: c in Flatten(groups[1..]) ==> c in Flatten(groups);
      TextIsJoin(groups[0]);
      if groups[0] != [] {
        NumericBuilder.SplitJoin(' ', groups[0]);
      }
      ReadBackGroups(replies[1..], groups[1..]);
    }
  }

  /** A client that splits the replies at spaces gets the listed capabilities, each once and in order. */
  lemma RepliesRoundTrip(maxline: nat, caps: seq<string>, asterisk: bool)
    requires forall c :: c in caps ==> c != "" && ' ' !in c
    ensures ReadBack(Replies(Lines(maxline, caps), asterisk)) == caps
  {
    LinesKeepCaps(maxline, caps);
    ReadBackGroups(Replies(Lines(maxline, caps), asterisk), Lines(maxline, caps));
  }

  method DisplayResult(limit: nat, serverName: string, nick: string, subcmd: string, result: seq<string>, asterisk: bool)
    returns (sent: seq<Reply>)
    ensures sent == Replies(Lines(MaxLine(limit, serverName, nick, subcmd), result), asterisk)
    ensures sent != [] && !sent[|sent| - 1].asterisk
    ensures forall i :: 0 <= i < |sent| - 1 ==> sent[i].asterisk == asterisk
    ensures (forall c :: c in result ==> c != "" && ' ' !in c) ==> ReadBack(sent) == result
  {
    var maxline := MaxLine(limit, serverName, nick, subcmd);
    sent := Display(maxline, result, asterisk);
    if forall c :: c in result ==> c != "" && ' ' !in c {
      RepliesRoundTrip(maxline, result, asterisk);
    }
  }

  method Display(maxline: nat, result: seq<string>, asterisk: bool) returns (sent: seq<Reply>)
    ensures sent == Replies(Lines(maxline, result), asterisk)
  {
    hide Text;
    EmptyText();
    sent := [];
    var line := "";
    ghost var p := AppendAll(maxline, []);
    for i := 0 to |result|
      invariant p == AppendAll(maxline, result[..i])
      invariant |sent| == |p.groups|
      invariant forall j :: 0 <= j < |sent| ==> sent[j] == Reply(Text(p.groups[j]), asterisk)
      invariant line == Text(p.pending)
    {
      var cap := result[i];
      assert result[..i + 1][..i] == result[..i];
      if |line| + |cap| >= maxline {
        sent := sent + [Reply(line, asterisk)];
        line := "";
        p := NumericBuilder.Packed(p.groups + [p.pending], []);
      }
      TextOneMore(p.pending, cap);
      if line != "" {
        line := line + " ";
      }
      line := line + cap;
      p := p.(pending := p.pending + [cap]);
    }
    assert result[..|result|] == result;
    sent := sent + [Reply(line, false)];
  }
}
