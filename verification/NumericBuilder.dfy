/**
 The two numeric builders, which spread the entries of a long reply over several numerics.

 `GenericBuilder` joins entries into one text with a separator after each entry and drops the
 last separator when it sends.  `GenericParamBuilder` sends entries as separate parameters after
 a fixed number of leading ones.  Both follow the same packing policy, stated here once as
 functions on the entries sent and pending; the classes are proved to follow it, and the
 properties are proved of the policy for every list of entries.
 */
module NumericBuilder {
  import opened Collections
  import opened Packing
  import Serializer

  // ----- texts and their size

  /** The entries, each followed by the separator: the text a builder accumulates. */
  function Terminated(sep: char, entries: seq<string>): string
  {
    if entries == [] then "" else entries[0] + [sep] + Terminated(sep, entries[1..])
  }

  /** The entries with the separator between them: the text a client receives. */
  function Join(sep: char, entries: seq<string>): string
  {
    if entries == [] then ""
    else if |entries| == 1 then entries[0]
    else entries[0] + [sep] + Join(sep, entries[1..])
  }

  /** The parts of a text between separators. */
  function Split(sep: char, text: string): (parts: seq<string>)
    ensures parts != []
  {
    if text == "" then [""]
    else
      var rest := Split(sep, text[1..]);
      if text[0] == sep then [""] + rest else [[text[0]] + rest[0]] + rest[1..]
  }

  lemma RoomOfSingle(entries: seq<string>)
    requires |entries| == 1
    ensures SeparatedRoom(entries) == |entries[0]| + 1
  {
    assert entries[1..] == [];
  }

  lemma {:induction false} RoomOfMember(entries: seq<string>, i: nat)
    requires i < |entries|
    ensures |entries[i]| + 1 <= SeparatedRoom(entries)
  {
    if i > 0 {
      RoomOfMember(entries[1..], i - 1);
    }
  }

  lemma {:induction false} TerminatedAppend(sep: char, front: seq<string>, entry: string)
    ensures Terminated(sep, front + [entry]) == Terminated(sep, front) + entry + [sep]
    decreases front
  {
    if front == [] {
      assert front + [entry] == [entry];
      assert Terminated(sep, [entry]) == entry + [sep] + Terminated(sep, []);
    } else {
      assert (front + [entry])[1..] == front[1..] + [entry];
      TerminatedAppend(sep, front[1..], entry);
      var a, b := front[0] + [sep], Terminated(sep, front[1..]);
      assert a + (b + entry + [sep]) == (a + b) + entry + [sep];
    }
  }

  lemma {:induction false} TerminatedIsJoin(sep: char, entries: seq<string>)
    ensures |Terminated(sep, entries)| == SeparatedRoom(entries)
    ensures entries != [] ==> Terminated(sep, entries) == Join(sep, entries) + [sep]
    decreases entries
  {
    if |entries| > 1 {
      TerminatedIsJoin(sep, entries[1..]);
      var a, b := entries[0] + [sep], Join(sep, entries[1..]);
      assert a + (b + [sep]) == (a + b) + [sep];
    } else if |entries| == 1 {
      assert entries[1..] == [];
    }
  }

  lemma {:induction false} SplitPrefix(sep: char, entry: string, rest: string)
    requires sep !in entry
    ensures Split(sep, entry + [sep] + rest) == [entry] + Split(sep, rest)
    ensures Split(sep, entry) == [entry]
    decreases entry
  {
    if entry == "" {
      assert ("" + [sep] + rest)[1..] == rest;
    } else {
      SplitPrefix(sep, entry[1..], rest);
      assert (entry + [sep] + rest)[1..] == entry[1..] + [sep] + rest;
      assert [entry[0]] + entry[1..] == entry;
    }
  }

  /** Splitting a joined text gives the entries back, provided that no entry contains the separator. */
  lemma {:induction false} SplitJoin(sep: char, entries: seq<string>)
    requires entries != [] && forall i :: 0 <= i < |entries| ==> sep !in entries[i]
    ensures Split(sep, Join(sep, entries)) == entries
    decreases entries
  {
    if |entries| == 1 {
      SplitPrefix(sep, entries[0], "");
    } else {
      SplitJoin(sep, entries[1..]);
      SplitPrefix(sep, entries[0], Join(sep, entries[1..]));
      assert [entries[0]] + entries[1..] == entries;
    }
  }

  // ----- the room of a message

  /** How many values a size has; subtraction wraps around below zero. */
  const SIZE_RANGE: nat := 0x1_0000_0000_0000_0000

  function RoomLeft(size: nat, taken: nat): nat
  {
    (size - taken) % SIZE_RANGE
  }

  /** The room is what is left of the line if and only if the line is long enough; otherwise it is huge. */
  lemma RoomLeftIff(size: nat, taken: nat)
    requires size < SIZE_RANGE && taken < SIZE_RANGE
    ensures RoomLeft(size, taken) <= size <==> taken <= size
    ensures RoomLeft(size, taken) == if taken <= size then size - taken else SIZE_RANGE - (taken - size)
  {
    if taken > size {
      assert (size - taken) + SIZE_RANGE == SIZE_RANGE - (taken - size);
      assert RoomLeft(size, taken) == ((size - taken) + SIZE_RANGE) % SIZE_RANGE;
    }
  }

  /**
   A numeric with a joined text arrives whole if and only if the text keeps to the room left, when
   the builder was told the size of the nick and of the parameters before the text.
   */
  lemma NumericIsWholeIff(maxLine: nat, serverName: string, number: string, nick: string, extra: seq<string>, text: string)
    requires |number| == 3 && |serverName| + (SeparatedRoom(extra) + |nick|) + 10 <= maxLine < SIZE_RANGE
    ensures var line := Serializer.Line(serverName, number, [nick] + extra + [text]);
            Serializer.Serialize(maxLine, line) == line + "\r\n"
            <==> |text| <= RoomLeft(maxLine, |serverName| + (SeparatedRoom(extra) + |nick|) + 10)
  {
    hide RoomLeft, Serializer.Line, Serializer.Serialize;
    var params := [nick] + extra + [text];
    var line := Serializer.Line(serverName, number, params);
    RoomLeftIff(maxLine, |serverName| + (SeparatedRoom(extra) + |nick|) + 10);
    SeparatedRoomAppend([nick] + extra, [text]);
    SeparatedRoomAppend([nick], extra);
    assert SeparatedRoom([nick]) == |nick| + 1 && SeparatedRoom([text]) == |text| + 1;
    Serializer.LineLength(serverName, number, params);
    Serializer.WholeIff(maxLine, line);
  }

  /** A numeric whose entries are parameters arrives whole if and only if the entries keep to the room that the leading ones leave. */
  lemma ParamNumericIsWholeIff(maxLine: nat, serverName: string, number: string, nick: string, statics: seq<string>, entries: seq<string>)
    requires |number| == 3 && |serverName| + |nick| + 10 + SeparatedRoom(statics) <= maxLine < SIZE_RANGE
    ensures var line := Serializer.Line(serverName, number, [nick] + statics + entries);
            Serializer.Serialize(maxLine, line) == line + "\r\n"
            <==> SeparatedRoom(entries) <= RoomLeft(maxLine, |serverName| + |nick| + 10 + SeparatedRoom(statics)) + 1
  {
    hide RoomLeft, Serializer.Line, Serializer.Serialize;
    var params := [nick] + statics + entries;
    var line := Serializer.Line(serverName, number, params);
    RoomLeftIff(maxLine, |serverName| + |nick| + 10 + SeparatedRoom(statics));
    SeparatedRoomAppend([nick] + statics, entries);
    SeparatedRoomAppend([nick], statics);
    assert SeparatedRoom([nick]) == |nick| + 1;
    Serializer.LineLength(serverName, number, params);
    Serializer.WholeIff(maxLine, line);
  }

  // ----- the packing policy

  /** The entries of each message sent so far, and the entries not sent yet. */
  datatype Packed = Packed(groups: seq<seq<string>>, pending: seq<string>)

  function FlushEntries(p: Packed, sendEmpty: bool): Packed
  {
    if p.pending == [] && !sendEmpty then p else Packed(p.groups + [p.pending], [])
  }

  function AddEntry(p: Packed, max: nat, sendEmpty: bool, entry: string): Packed
  {
    var room := if SeparatedRoom(p.pending) + |entry| <= max then p else FlushEntries(p, sendEmpty);
    room.(pending := room.pending + [entry])
  }

  /** Adding entries one after the other. */
  function AddEntries(p: Packed, max: nat, sendEmpty: bool, entries: seq<string>): Packed
  {
    if entries == [] then p
    else AddEntry(AddEntries(p, max, sendEmpty, entries[..|entries| - 1]), max, sendEmpty, entries[|entries| - 1])
  }

  /** The messages sent for a list of entries: all are added, then the builder is flushed. */
  function Groups(max: nat, sendEmpty: bool, entries: seq<string>): seq<seq<string>>
  {
    FlushEntries(AddEntries(Packed([], []), max, sendEmpty, entries), sendEmpty).groups
  }

  /** The joined text of the entries has at most `max` characters. */
  predicate FitsWithin(max: nat, entries: seq<string>)
  {
    SeparatedRoom(entries) <= max + 1
  }

  lemma FitsIsTextLength(max: nat, sep: char, entries: seq<string>)
    ensures FitsWithin(max, entries) <==> |Join(sep, entries)| <= max
  {
    TerminatedIsJoin(sep, entries);
  }

  ghost function OnOneMessage(max: nat): seq<string> -> bool
  {
    (entries: seq<string>) => FitsWithin(max, entries)
  }

  lemma OnOneMessageIsSegmentClosed(max: nat)
    ensures SegmentClosed(OnOneMessage(max))
  {
    forall s: seq<string>, i, j | 0 <= i <= j <= |s| && OnOneMessage(max)(s)
      ensures OnOneMessage(max)(s[i..j])
    {
      assert s == s[..i] + s[i..] && s[i..] == s[i..j] + s[j..];
      SeparatedRoomAppend(s[..i], s[i..]);
      SeparatedRoomAppend(s[i..j], s[j..]);
    }
  }

  /** A group within the limit, or one that only holds a single entry. */
  predicate FitsOrSingle(max: nat, group: seq<string>)
  {
    FitsWithin(max, group) || |group| == 1
  }

  /** What holds of all messages and of the pending entries after every sequence of Add calls. */
  ghost predicate PackedFrom(p: Packed, max: nat, sendEmpty: bool, entries: seq<string>)
  {
    && Flatten(p.groups) + p.pending == entries
    && (forall i :: 0 <= i < |p.groups| ==> FitsOrSingle(max, p.groups[i]))
    && FitsOrSingle(max, p.pending)
    && (p.pending == [] ==> entries == [] && p.groups == [])
    && (!sendEmpty ==> NoEmptyLine(p.groups))
  }

  /** In addition, when every entry fits: no message is empty and each was sent only for lack of room. */
  ghost predicate PackedGreedily(p: Packed, max: nat)
  {
    && NoEmptyLine(p.groups)
    && (forall i :: 0 <= i < |p.groups| - 1 ==> !FitsWithin(max, p.groups[i] + [p.groups[i + 1][0]]))
    && (p.groups != [] && p.pending != [] ==> !FitsWithin(max, p.groups[|p.groups| - 1] + [p.pending[0]]))
  }

  lemma AddKeepsPackedFrom(p: Packed, max: nat, sendEmpty: bool, entries: seq<string>, entry: string)
    requires PackedFrom(p, max, sendEmpty, entries)
    ensures PackedFrom(AddEntry(p, max, sendEmpty, entry), max, sendEmpty, entries + [entry])
  {
    SeparatedRoomAppend(p.pending, [entry]);
    FlattenAppend(p.groups, [p.pending]);
    assert Flatten([p.pending]) == p.pending + Flatten([]);
    assert Flatten(p.groups) + (p.pending + [entry]) == entries + [entry];
  }

  lemma AddKeepsPackedGreedily(p: Packed, max: nat, sendEmpty: bool, entries: seq<string>, entry: string)
    requires PackedFrom(p, max, sendEmpty, entries) && PackedGreedily(p, max) && |entry| <= max
    ensures PackedGreedily(AddEntry(p, max, sendEmpty, entry), max)
  {
    SeparatedRoomAppend(p.pending, [entry]);
    assert SeparatedRoom([entry]) == |entry| + 1;
  }

  lemma NothingPacked(max: nat, sendEmpty: bool)
    ensures PackedFrom(Packed([], []), max, sendEmpty, []) && PackedGreedily(Packed([], []), max)
  {
  }

  lemma {:induction false} AddEntriesPacks(max: nat, sendEmpty: bool, entries: seq<string>)
    ensures var p := AddEntries(Packed([], []), max, sendEmpty, entries);
            && PackedFrom(p, max, sendEmpty, entries)
            && ((forall e :: e in entries ==> |e| <= max) ==> PackedGreedily(p, max))
    decreases entries
  {
    hide PackedFrom, PackedGreedily, AddEntry;
    NothingPacked(max, sendEmpty);
    if entries != [] {
      var front, last := entries[..|entries| - 1], entries[|entries| - 1];
      AddEntriesPacks(max, sendEmpty, front);
      assert front + [last] == entries;
      var p := AddEntries(Packed([], []), max, sendEmpty, front);
      AddKeepsPackedFrom(p, max, sendEmpty, front, last);
      if forall e :: e in entries ==> |e| <= max {
        assert forall e :: e in front ==> e in entries;
        AddKeepsPackedGreedily(p, max, sendEmpty, front, last);
      }
    }
  }

  /** The messages hold every entry exactly once and in order. */
  lemma GroupsKeepEntries(max: nat, sendEmpty: bool, entries: seq<string>)
    ensures Flatten(Groups(max, sendEmpty, entries)) == entries
    ensures entries != [] && !sendEmpty ==> NoEmptyLine(Groups(max, sendEmpty, entries))
  {
    AddEntriesPacks(max, sendEmpty, entries);
    var p := AddEntries(Packed([], []), max, sendEmpty, entries);
    FlattenAppend(p.groups, [p.pending]);
    assert Flatten([p.pending]) == p.pending + Flatten([]);
  }

  /** A message within the limit leaves no entry out of it. */
  lemma FittingGroupsHaveFittingEntries(max: nat, groups: seq<seq<string>>, entry: string)
    requires AllFit(OnOneMessage(max), groups) && entry in Flatten(groups)
    ensures |entry| <= max
  {
    FlattenContains(groups, entry);
    var g :| 0 <= g < |groups| && entry in groups[g];
    var j :| 0 <= j < |groups[g]| && groups[g][j] == entry;
    RoomOfMember(groups[g], j);
    assert OnOneMessage(max)(groups[g]);
  }

  /** Entries within the limit make messages within the limit. */
  lemma FittingEntriesMakeFittingGroups(max: nat, groups: seq<seq<string>>)
    requires forall e :: e in Flatten(groups) ==> |e| <= max
    requires forall i :: 0 <= i < |groups| ==> FitsOrSingle(max, groups[i])
    ensures AllFit(OnOneMessage(max), groups)
  {
    hide Flatten;
    forall g | 0 <= g < |groups|
      ensures OnOneMessage(max)(groups[g])
    {
      if |groups[g]| == 1 {
        FlattenContains(groups, groups[g][0]);
        RoomOfSingle(groups[g]);
      }
    }
  }

  lemma {:induction false} EmptyFirstGroup(max: nat, sendEmpty: bool, entries: seq<string>)
    requires entries != []
    ensures var p := AddEntries(Packed([], []), max, sendEmpty, entries);
            && p.pending != []
            && ([] in p.groups <==> sendEmpty && |entries[0]| > max)
    decreases entries
  {
    AddEntriesPacks(max, sendEmpty, entries);
    hide PackedFrom, PackedGreedily;
    if |entries| == 1 {
      assert entries[..0] == [];
      assert AddEntries(Packed([], []), max, sendEmpty, []) == Packed([], []);
      assert [] + [entries[0]] == [entries[0]];
    } else {
      EmptyFirstGroup(max, sendEmpty, entries[..|entries| - 1]);
    }
  }

  /**
   A message without entries is sent if and only if that is wanted, and there are no entries or the
   first one does not fit.
   */
  lemma EmptyMessageIff(max: nat, sendEmpty: bool, entries: seq<string>)
    ensures [] in Groups(max, sendEmpty, entries) <==> sendEmpty && (entries == [] || |entries[0]| > max)
    ensures entries == [] ==> Groups(max, sendEmpty, entries) == if sendEmpty then [[]] else []
  {
    if entries != [] {
      EmptyFirstGroup(max, sendEmpty, entries);
    }
  }

  /** Every message is within the limit or holds a single entry. */
  lemma GroupsFitOrSingle(max: nat, sendEmpty: bool, entries: seq<string>)
    ensures forall i :: 0 <= i < |Groups(max, sendEmpty, entries)| ==> FitsOrSingle(max, Groups(max, sendEmpty, entries)[i])
  {
    hide SeparatedRoom, Flatten, AddEntries, FitsOrSingle, PackedGreedily;
    AddEntriesPacks(max, sendEmpty, entries);
  }

  /** Every message stays within the limit if and only if every entry does. */
  lemma GroupsFitIff(max: nat, sendEmpty: bool, entries: seq<string>)
    ensures AllFit(OnOneMessage(max), Groups(max, sendEmpty, entries)) <==> forall e :: e in entries ==> |e| <= max
  {
    hide SeparatedRoom, Flatten, Groups, FitsOrSingle, AllFit;
    GroupsFitOrSingle(max, sendEmpty, entries);
    GroupsKeepEntries(max, sendEmpty, entries);
    var groups := Groups(max, sendEmpty, entries);
    if AllFit(OnOneMessage(max), groups) {
      forall e | e in entries
        ensures |e| <= max
      {
        FittingGroupsHaveFittingEntries(max, groups, e);
      }
    }
    if forall e :: e in entries ==> |e| <= max {
      FittingEntriesMakeFittingGroups(max, groups);
    }
  }

  /** When every entry fits, no message is empty and each was sent only because the next entry did not fit. */
  lemma GroupsAreGreedy(max: nat, sendEmpty: bool, entries: seq<string>)
    requires entries != [] && forall e :: e in entries ==> |e| <= max
    ensures NoEmptyLine(Groups(max, sendEmpty, entries)) && Maximal(OnOneMessage(max), Groups(max, sendEmpty, entries))
  {
    AddEntriesPacks(max, sendEmpty, entries);
    hide SeparatedRoom, AddEntries, Flatten;
    var p := AddEntries(Packed([], []), max, sendEmpty, entries);
    var groups := Groups(max, sendEmpty, entries);
    assert p.pending != [] && groups == p.groups + [p.pending];
    forall i | 0 <= i < |groups| - 1
      ensures !FitsWithin(max, groups[i] + [groups[i + 1][0]])
    {
    }
  }

  /** No division of the entries into messages within the limit has fewer messages. */
  lemma GroupsAreFewest(max: nat, sendEmpty: bool, entries: seq<string>, other: seq<seq<string>>)
    requires entries != []
    requires Flatten(other) == entries && forall i :: 0 <= i < |other| ==> FitsWithin(max, other[i])
    ensures |Groups(max, sendEmpty, entries)| <= |other|
  {
    hide Flatten, SeparatedRoom, AddEntries, Groups;
    assert AllFit(OnOneMessage(max), other);
    forall e | e in entries
      ensures |e| <= max
    {
      FittingGroupsHaveFittingEntries(max, other, e);
    }
    GroupsKeepEntries(max, sendEmpty, entries);
    GroupsAreGreedy(max, sendEmpty, entries);
    OnOneMessageIsSegmentClosed(max);
    GreedyIsOptimal(OnOneMessage(max), Groups(max, sendEmpty, entries), other);
  }

  /** The text of each group. */
  function Texts(sep: char, groups: seq<seq<string>>): seq<string>
  {
    seq(|groups|, i requires 0 <= i < |groups| => Join(sep, groups[i]))
  }

  function SplitAll(sep: char, texts: seq<string>): seq<string>
  {
    if texts == [] then [] else Split(sep, texts[0]) + SplitAll(sep, texts[1..])
  }

  lemma {:induction false} SplitAllTexts(sep: char, groups: seq<seq<string>>)
    requires NoEmptyLine(groups) && forall e :: e in Flatten(groups) ==> sep !in e
    ensures SplitAll(sep, Texts(sep, groups)) == Flatten(groups)
    decreases groups
  {
    if groups != [] {
      SplitJoin(sep, groups[0]);
      assert Texts(sep, groups)[1..] == Texts(sep, groups[1..]);
      SplitAllTexts(sep, groups[1..]);
    }
  }

  /** A client that splits the texts it receives recovers the entries. */
  lemma TextsRoundTrip(max: nat, sep: char, entries: seq<string>)
    requires forall e :: e in entries ==> sep !in e
    ensures SplitAll(sep, Texts(sep, Groups(max, false, entries))) == entries
  {
    AddEntriesPacks(max, false, entries);
    GroupsKeepEntries(max, false, entries);
    SplitAllTexts(sep, Groups(max, false, entries));
  }

  /** No text sent exceeds the limit if and only if no entry does. */
  lemma TextsFitIff(max: nat, sendEmpty: bool, sep: char, entries: seq<string>)
    ensures (forall t :: t in Texts(sep, Groups(max, sendEmpty, entries)) ==> |t| <= max)
            <==> forall e :: e in entries ==> |e| <= max
  {
    var groups := Groups(max, sendEmpty, entries);
    var texts := Texts(sep, groups);
    GroupsFitIff(max, sendEmpty, entries);
    hide Groups, Join, SeparatedRoom;
    forall i | 0 <= i < |groups|
      ensures |texts[i]| <= max <==> OnOneMessage(max)(groups[i])
    {
      FitsIsTextLength(max, sep, groups[i]);
    }
  }

  // ----- the builders

  class GenericBuilder {
    const sep: char
    const sendEmpty: bool
    const max: nat
    var data: string        // the last parameter of the numeric
    var sent: seq<string>   // that parameter in every numeric given to the sink
    ghost var packed: Packed

    ghost predicate Valid()
      reads this
    {
      data == Terminated(sep, packed.pending) && sent == Texts(sep, packed.groups)
    }

    /** The size of the text is what the line leaves after the server name and the given overhead. */
    constructor (sep: char, sendEmpty: bool, maxLine: nat, serverName: string, additionalSize: nat)
      ensures Valid() && packed == Packed([], [])
      ensures this.sep == sep && this.sendEmpty == sendEmpty
      ensures max == RoomLeft(maxLine, |serverName| + additionalSize + 10)
    {
      this.sep, this.sendEmpty := sep, sendEmpty;
      max := RoomLeft(maxLine, |serverName| + additionalSize + 10);
      data, sent, packed := "", [], Packed([], []);
    }

    predicate HasRoom(additional: nat)
      reads this
    {
      |data| + additional <= max
    }

    predicate IsEmpty()
      reads this
    {
      data == ""
    }

    method Flush()
      requires Valid()
      modifies this
      ensures Valid() && packed == FlushEntries(old(packed), sendEmpty) && data == ""
      ensures old(data) == "" && !sendEmpty ==> sent == old(sent)
      ensures old(data) == "" && sendEmpty ==> sent == old(sent) + [""]
      ensures old(data) != "" ==> sent == old(sent) + [old(data)[..|old(data)| - 1]]
    {
      TerminatedIsJoin(sep, packed.pending);
      ghost var groups, pending := packed.groups, packed.pending;
      if IsEmpty() {
        if !sendEmpty {
          return;
        }
      } else {
        data := data[..|data| - 1];
      }
      assert data == Join(sep, pending);
      sent := sent + [data];
      data := "";
      packed := Packed(groups + [pending], []);
    }

    method Add(entry: string)
      requires Valid()
      modifies this
      ensures Valid() && packed == AddEntry(old(packed), max, sendEmpty, entry)
    {
      TerminatedIsJoin(sep, packed.pending);
      if !HasRoom(|entry|) {
        Flush();
      }
      TerminatedAppend(sep, packed.pending, entry);
      data := data + entry + [sep];
      packed := packed.(pending := packed.pending + [entry]);
    }

    method AddPair(entry1: string, entry2: string)
      requires Valid()
      modifies this
      ensures Valid() && packed == AddEntry(old(packed), max, sendEmpty, entry1 + entry2)
    {
      TerminatedIsJoin(sep, packed.pending);
      if !HasRoom(|entry1| + |entry2|) {
        Flush();
      }
      TerminatedAppend(sep, packed.pending, entry1 + entry2);
      assert data + entry1 + entry2 + [sep] == data + (entry1 + entry2) + [sep];
      data := data + entry1 + entry2 + [sep];
      packed := packed.(pending := packed.pending + [entry1 + entry2]);
    }
  }

  /** Sends a list of entries through a fresh builder. */
  method SendJoined(b: GenericBuilder, entries: seq<string>)
    requires b.Valid() && b.packed == Packed([], [])
    modifies b
    ensures b.Valid()
    ensures b.sent == Texts(b.sep, Groups(b.max, b.sendEmpty, entries))
    ensures b.data == ""
    ensures entries == [] ==> b.sent == if b.sendEmpty then [""] else []
  {
    EmptyMessageIff(b.max, b.sendEmpty, entries);
    for i := 0 to |entries|
      invariant b.Valid() && b.packed == AddEntries(Packed([], []), b.max, b.sendEmpty, entries[..i])
    {
      assert entries[..i + 1][..i] == entries[..i];
      b.Add(entries[i]);
    }
    assert entries[..|entries|] == entries;
    b.Flush();
  }

  class GenericParamBuilder {
    const numStaticParams: nat
    const sendEmpty: bool
    var params: seq<string>      // the parameters of the numeric
    var currlen: nat
    var max: nat
    var sent: seq<seq<string>>   // the parameters of every numeric given to the sink
    ghost var statics: seq<string>
    ghost var packed: Packed

    ghost predicate Valid()
      reads this
    {
      && params == statics + packed.pending
      && currlen == SeparatedRoom(packed.pending)
      && |statics| <= numStaticParams
      && (packed != Packed([], []) ==> |statics| == numStaticParams)
      && |sent| == |packed.groups|
      && (forall i :: 0 <= i < |sent| ==> sent[i] == statics + packed.groups[i])
    }

    constructor (numStaticParams: nat, sendEmpty: bool, maxLine: nat, serverName: string, additionalSize: nat)
      ensures Valid() && packed == Packed([], []) && statics == []
      ensures this.numStaticParams == numStaticParams && this.sendEmpty == sendEmpty
      ensures max == RoomLeft(maxLine, |serverName| + additionalSize + 10)
    {
      this.numStaticParams, this.sendEmpty := numStaticParams, sendEmpty;
      max := RoomLeft(maxLine, |serverName| + additionalSize + 10);
      params, currlen, sent, statics, packed := [], 0, [], [], Packed([], []);
    }

    predicate HasRoom(additional: nat)
      reads this
    {
      currlen + additional <= max
    }

    predicate IsEmpty()
      reads this
    {
      |params| <= numStaticParams
    }

    /** A leading parameter takes its share of the room once and for all. */
    method AddStatic(entry: string)
      requires Valid() && packed == Packed([], []) && |statics| < numStaticParams
      modifies this
      ensures Valid() && packed == old(packed) && statics == old(statics) + [entry]
      ensures max == RoomLeft(old(max), |entry| + 1)
    {
      max := RoomLeft(max, |entry| + 1);
      params := params + [entry];
      statics := statics + [entry];
    }

    method Flush()
      requires Valid() && |statics| == numStaticParams
      modifies this
      ensures Valid() && statics == old(statics) && max == old(max)
      ensures packed == FlushEntries(old(packed), sendEmpty) && params == statics && currlen == 0
      ensures sent == if !sendEmpty && old(params) == statics then old(sent) else old(sent) + [old(params)]
    {
      if !sendEmpty && IsEmpty() {
        return;
      }
      sent := sent + [params];
      currlen := 0;
      params := params[..numStaticParams];
      packed := Packed(packed.groups + [packed.pending], []);
    }

    method Add(entry: string)
      requires Valid() && |statics| == numStaticParams
      modifies this
      ensures Valid() && statics == old(statics) && max == old(max)
      ensures packed == AddEntry(old(packed), max, sendEmpty, entry)
    {
      if !HasRoom(|entry|) {
        Flush();
      }
      SeparatedRoomAppend(packed.pending, [entry]);
      currlen := currlen + |entry| + 1;
      params := params + [entry];
      packed := packed.(pending := packed.pending + [entry]);
    }
  }

  /** Sends a list of entries as parameters after the leading ones of a fresh builder. */
  method SendAsParams(b: GenericParamBuilder, entries: seq<string>)
    requires b.Valid() && b.packed == Packed([], []) && |b.statics| == b.numStaticParams
    modifies b
    ensures b.Valid() && b.statics == old(b.statics) && b.max == old(b.max)
    ensures var groups := Groups(b.max, b.sendEmpty, entries);
            |b.sent| == |groups| && forall i :: 0 <= i < |groups| ==> b.sent[i] == b.statics + groups[i]
    ensures entries == [] ==> b.sent == if b.sendEmpty then [b.statics] else []
  {
    hide SeparatedRoom, Flatten;
    EmptyMessageIff(b.max, b.sendEmpty, entries);
    for i := 0 to |entries|
      invariant b.Valid() && b.statics == old(b.statics) && b.max == old(b.max) && |b.statics| == b.numStaticParams
      invariant b.packed == AddEntries(Packed([], []), b.max, b.sendEmpty, entries[..i])
    {
      assert entries[..i + 1][..i] == entries[..i];
      b.Add(entries[i]);
    }
    assert entries[..|entries|] == entries;
    b.Flush();
  }
}
