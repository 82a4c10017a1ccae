# A verified model of the InspIRCd core data structures and modules

InspIRCd is a modular IRC server. This project models the parts of it whose state is easy to get
wrong and proves, for every input and every run, that they do what they are for. Each module of
the project follows one component of the server. Code that updates objects in place is modelled by
classes and methods that update them in place; every such method is proved against a function or
relation on values, and the theorems are about whole runs of those.

| file | component |
|---|---|
| `CallerId.dfy` | accept lists of the `callerid` module: pointers in both directions, users and records on the heap, quits and deletion |
| `ModeLine.dfy` | splitting mode changes over MODE messages |
| `NumericBuilder.dfy`, `CapListing.dfy`, `Serializer.dfy` | splitting long replies over numerics and CAP lines, and what the line limit cuts off |
| `Packing.dfy`, `Collections.dfy` | what these splitters share: greedy packing and why it is optimal; helpers |
| `IntrusiveList.dfy` | the intrusive doubly linked list |
| `FlatContainers.dfy` | the sets and maps kept in sorted vectors |
| `Events.dfy` | cross-module event providers on top of them |
| `DelayJoin.dfy` | delayed joins: who is shown to whom, and what every client is told |
| `Capabilities.dfy`, `Words.dfy` | the IRCv3 capability manager: bits of words that are handed out again, requests, module reloads |
| `NickCollisions.dfy`, `Codepage.dfy` | the `codepage` module: nick collisions after a change of case mapping, and characters allowed in nicks |
| `ChannelHistory.dfy` | channel history against a complete log |
| `DenyChannels.dfy` | forbidden channels and their redirects |

`dafny verify dfyconfig.toml` checks everything.

## Main results

* **Accept lists** (`CallerId.Network.Run`). After every run of connections, ACCEPTs, messages, nick
  changes, quits, deletions, deserialisations and changes of the configuration the records stand for a plain set of pairs
  (`CallerId.After`), also when users accept themselves. Of the five reports of an inconsistency,
  (1), (3) and (5) are never made in such runs, and (2) and (4) exactly when a step walks over an
  entry that has lost its pointer back (`CallerId.Reports`). No entry is ever lost if and only if no record is
  deserialised while somebody else lists its owner (`CallerId.NothingLostIff`); then nothing is reported at all.
* **MODE lines.** Decoding all messages by the rules of section 4.2.3 of RFC 1459 gives back the change list;
  no division of the list into lines within the limit has fewer lines; and the splitting loop ends
  if and only if no parameter is longer than 447 characters.
* **Delayed joins.** A client's picture of a channel is computed from the messages delivered to it
  alone. In every run each local client's picture is exactly the members that are not hidden, no
  client gets the same JOIN twice in a stay, everything that is due is sent, once, and nothing else
  (`DelayJoin.Due` says what is due), and nobody hears that a member parts, is kicked, quits,
  changes nick or speaks without having been told of that member before. Who kicks may be unknown; see below.
* **Capabilities.** Although bits are reused, in every run that registers no name twice the manager,
  which works on words, behaves like a plain relation between users and capabilities; whoever has a
  capability requested it after its registration; a reload gives every user back what they had, by name.
* **Nick collisions.** The pass over the users leaves everyone with the same nick in every order of visits if
  and only if for every nick one contender is strictly the oldest, or all are equally old and even in number.
* **Sorted vectors and events.** Over an arbitrary strict weak order, any sequence of operations
  agrees with an unordered list in which every operation is obvious.

## What does not hold

Some promises hold only under a condition; the project states the condition exactly.

* The MODE splitting loop never ends if a parameter is longer than 447 characters
  (`ModeLine.SplittingCompletesIff`). The mode parser crops parameters to the documented 250
  characters only when a mode is added (`src/mode.cpp:313-315`). Removing a channel key keeps its
  parameter, and for a remote source the parameter is not compared with the key
  (`modules/core/channel/cmode_k.cpp:41-61`), so a `-k` from another server with a longer parameter
  gets through (`ModeLine.LongKeyRemovalNeverEnds`).
* Deserialising a user's accept list drops their back-pointers, so every entry of somebody else for
  that user is lost (`CallerId.Module.FromInternal`, and `CallerId.ListedRestoreLoses` for an input).
  Removing a lost entry reports inconsistency (4), and a quit leaves it in place, so that deleting
  the user would leave a dangling entry: lists hold only users who are there if and only if a run
  deletes nobody who is still listed (`CallerId.RunsAcceptOnlyLiveIff`).
* An accept list can be longer than the limit. Deserialising does not look at it
  (`CallerId.RestoreExceedsLimit`), and reading the configuration can lower it
  (`CallerId.RehashExceedsLimit`). Throughout a run all lists are within the limit in force if and
  only if no record that is deserialised names more users than the limit, and no new limit is
  below the length of a list (`CallerId.ListsAreBoundedIff`). A new limit is safe whatever the lists if and
  only if it is not lower (`CallerId.NewLimitSafeIff`); a list that is too long does not grow by ACCEPT
  (`CallerId.ListGrowth`).
* A reload of the callerid module (`modules/core/reloadmodule.cpp`) deletes and restores records in the same
  order. Restoring in some order loses exactly the entries for somebody whose record comes later
  (`CallerId.Module.RestoreAll`), and deleting reports an inconsistency exactly for entries for somebody who
  came earlier (`CallerId.Module.Unload`). So a reload is silent and leaves the two directions in
  agreement if and only if nobody accepts another user (`CallerId.Module.Reload`).
* Registering a capability whose name is taken is not safe: the next registration, of whatever
  capability, gets the same bit (`Capabilities.TakenNameSharesBit`), and whoever requests that one has both
  (`Capabilities.SharedBitGivesBoth`). While bits are free, every continuation that takes no further
  name twice, and one more registration, keep bits distinct if and only if the name was free
  (`Capabilities.RegistrationSafeIff`).
* Mode H does not bring back messages when a limit is raised: a change of limits is safe for every
  history if and only if it raises neither (`ChannelHistory.LimitChangeSafeIff`).
* Everyone who is told of a kick is told who kicked, and knows that member if and only if the kicker
  is not hidden by mode D (`DelayJoin.KickerKnownIff`): the module only looks at the victim.
* Who keeps a nick can depend on the order of visits: with times 5, 5 and 7 the youngest gets it or
  nobody does (`NickCollisions.TieDependsOnOrder`). All orders agree if and only if one contender is strictly
  the oldest, or all are equally old and even in number (`NickCollisions.VisitOrderIrrelevantIff`).
* A CAP reply can lose its end. The room of a line leaves nothing for the two characters that end it,
  so a reply with the asterisk arrives whole if and only if its text is two characters shorter than
  that room, and a reply without it if and only if it keeps to the room
  (`CapListing.ReplyIsWholeIff`, and `CapListing.AsteriskLineIsCut` for an input). The numeric builders
  leave exactly the room that is needed (`NumericBuilder.NumericIsWholeIff`).
* A CAP listing starts with an empty line if and only if its first capability fills a line on its own
  (`CapListing.EmptyLineIff`).

## Model

| member | source | states |
|---|---|---|
| `Packing.GreedyIsOptimal` | include/clientprotocolevent.h:63-71 | If every part of a line that fits also fits, a division that starts a new line only when the next item does not fit has no more lines than any other division of the same items |
| `Packing.GreedyStaysAhead` | include/clientprotocolmsg.h:278-301 | The same for a greedy division that starts anywhere within the other division's items |
| `ModeLine.ToModeLetters` | include/clientprotocolmsg.h:272-305 | The letters of the longest run of changes from a position that fits: the wire format of exactly those changes, within the limit, and one more change would exceed it |
| `ModeLine.PushModeParams` | include/clientprotocolmsg.h:309-317 | Appends the parameters of exactly the changes that have one, in order |
| `ModeLine.NewMessage` | include/clientprotocolmsg.h:338-347 | A message has the target, the letters and the parameters of a maximal run of changes |
| `ModeLine.DecodeLetters` | include/clientprotocolmsg.h:272-317 | Reading letters and parameters by the MODE rules gives the changes back, whatever sign was in force before |
| `ModeLine.RoomOfPart` | include/clientprotocolmsg.h:290-298 | No part of a run of changes takes more room than the whole, although a part may need a sign that the whole does not |
| `ModeLine.MessageStuckIff` | include/clientprotocolmsg.h:290-298 | A message carries no change if and only if the first parameter exceeds 447 characters |
| `ModeLine.SplittingCompletesIff` | include/clientprotocolevent.h:63-71 | The loop can reach the end of the list if and only if no parameter exceeds 447 characters |
| `ModeLine.LongKeyRemovalNeverEnds` | modules/core/channel/cmode_k.cpp:41-61 | A list with one removal of a key and a parameter of more than 447 characters cannot be sent completely |
| `ModeLine.DocumentedLimitIsSendable` | include/mode.h:574 | Parameters within MODE_PARAM_MAX can all be sent |
| `ModeLine.BuildMessages` | include/clientprotocolevent.h:63-71 | Ends, with consecutive maximal messages that carry the whole list |
| `ModeLine.MessagesRoundTrip` | include/clientprotocolevent.h:63-71 | Decoding all messages one after the other gives the change list: every change once and in order |
| `ModeLine.LinesAreGreedy` | include/clientprotocolevent.h:63-71 | The messages divide the list into non-empty lines within the limit, none of which could take the next change |
| `ModeLine.MessagesAreFewest` | include/clientprotocolevent.h:63-71 | No division of the change list into lines within the limit has fewer lines than there are messages |
| `ModeLine.MessagesKeepToLimit` | include/clientprotocolmsg.h:290-298 | In each message the letters and each parameter with its separator take at most 450 characters together |
| `NumericBuilder.GroupsKeepEntries` | include/numericbuilder.h:97-126 | After all entries were added and the builder was flushed, the messages hold every entry once and in order |
| `NumericBuilder.GroupsFitIff` | include/numericbuilder.h:80-126 | Every message stays within the limit if and only if every entry does |
| `NumericBuilder.TextsFitIff` | include/numericbuilder.h:80-126 | No joined text exceeds the limit if and only if no entry does |
| `NumericBuilder.FitsIsTextLength` | include/numericbuilder.h:80-83 | The room test, which counts a separator per entry, is the length of the joined text |
| `NumericBuilder.GroupsAreGreedy` | include/numericbuilder.h:97-109 | No message is empty and each was sent only because the next entry did not fit |
| `NumericBuilder.GroupsAreFewest` | include/numericbuilder.h:97-126 | No division of the entries into messages within the limit has fewer messages |
| `NumericBuilder.EmptyMessageIff` | include/numericbuilder.h:111-126 | A message without entries is sent if and only if empty messages are wanted and there are no entries or the first one does not fit |
| `NumericBuilder.SplitJoin` | include/numericbuilder.h:111-126 | Splitting a joined text at the separator gives the entries back |
| `NumericBuilder.TextsRoundTrip` | include/numericbuilder.h:97-126 | A client that splits all texts it receives recovers the entries |
| `NumericBuilder.RoomLeftIff` | include/numericbuilder.h:86-93 | The room left is what the overhead leaves of the line if and only if the line is long enough; otherwise the unsigned subtraction wraps around |
| `NumericBuilder.NumericIsWholeIff` | include/numericbuilder.h:86-93 | A numeric with a joined text is not cut if and only if the text keeps to the room of the builder |
| `NumericBuilder.ParamNumericIsWholeIff` | include/numericbuilder.h:156-167 | A numeric with entries as parameters is not cut if and only if they keep to the room that the leading ones leave |
| `Serializer.WholeIff` | modules/core/serialize_rfc.cpp:220-226 | No line is longer than the limit, and a line arrives whole if and only if it leaves room for its end |
| `Serializer.LineLength` | modules/core/serialize_rfc.cpp:201-218 | The length of a line: every parameter takes a separator and the last one a colon |
| `NumericBuilder.GenericBuilder.constructor` | include/numericbuilder.h:86-93 | The room is the line less the server name and the given overhead, wrapping around |
| `NumericBuilder.GenericBuilder.Flush` | include/numericbuilder.h:111-126 | Sends the pending text without its last separator; an empty one is sent if and only if that is wanted |
| `NumericBuilder.GenericBuilder.Add` | include/numericbuilder.h:97-102 | Adds an entry by the packing policy |
| `NumericBuilder.GenericBuilder.AddPair` | include/numericbuilder.h:104-109 | Adding two halves is adding one entry |
| `NumericBuilder.SendJoined` | include/numericbuilder.h:97-126 | The texts sent are the joined groups of the policy; for no entries one empty text if that is wanted, otherwise none |
| `NumericBuilder.GenericParamBuilder.constructor` | include/numericbuilder.h:156-161 | The same room for entries sent as parameters |
| `NumericBuilder.GenericParamBuilder.AddStatic` | include/numericbuilder.h:163-167 | A leading parameter takes its share of the room once and for all |
| `NumericBuilder.GenericParamBuilder.Add` | include/numericbuilder.h:169-176 | Adds an entry by the same policy; leading parameters are untouched |
| `NumericBuilder.GenericParamBuilder.Flush` | include/numericbuilder.h:178-186 | Sends all parameters and keeps the leading ones; without entries if and only if that is wanted |
| `NumericBuilder.SendAsParams` | include/numericbuilder.h:169-186 | Each numeric sent has the leading parameters and then one group of the policy; for no entries one with the leading parameters alone if that is wanted, otherwise none |
| `CapListing.DisplayResult` | modules/cap.cpp:368-384 | The replies are the texts of the lines, for any list of strings; the last one goes without the asterisk and the others as asked; splitting them at spaces gives the list back |
| `CapListing.LinesKeepCaps` | modules/cap.cpp:372-383 | The lines hold every capability once and in order |
| `CapListing.RepliesRoundTrip` | modules/cap.cpp:372-383 | A client that splits all replies at spaces gets the listed capabilities, each once and in order |
| `CapListing.ReplyIsWholeIff` | modules/cap.cpp:368-391 | A reply is not cut if and only if its text, and two characters more if there is the asterisk, keeps to the room of a line, in terms of the server name that is shown |
| `CapListing.AsteriskLineIsCut` | modules/cap.cpp:370-378 | Two capabilities, the first of which leaves one character of the room: the first reply is cut |
| `CapListing.AppendAllIsAddEntries` | modules/cap.cpp:374-381 | After any number of capabilities the loop has packed exactly as a numeric builder, but for that empty line |
| `CapListing.LinesAreGroups` | modules/cap.cpp:368-384 | The lines are the messages of a numeric builder with the same limit, after an empty line if the first capability fills a line |
| `CapListing.EmptyLineIff` | modules/cap.cpp:372-378 | An empty line is sent if and only if there is nothing to list or the first capability fills a line on its own |
| `CapListing.LinesFitIff` | modules/cap.cpp:372-383 | Every line is within the limit if and only if every capability is |
| `CapListing.LinesArePacked` | modules/cap.cpp:368-384 | No division into lines within the limit has fewer lines, apart from the empty one in front |
| `CallerId.SwapEraseRemoves` | include/utility/container.h:134-159 | On a list without duplicates exactly the given element disappears |
| `CallerId.Module.AcceptedIffListedOnce` | modules/callerid.cpp:56-64 | v is in u's accepting and not lost if and only if u's record occurs exactly once in v's wholistsme, also for u = v |
| `CallerId.Module.LostIffUnlinked` | modules/callerid.cpp:56-64 | The lost entries are exactly those without a pointer back |
| `CallerId.Module.QuittingUserIsUnlisted` | modules/callerid.cpp:460-463 | From quit to deletion the user's back-pointers are empty and nobody accepts the user but through a lost entry |
| `CallerId.Module.DeletedAreUnreferenced` | modules/callerid.cpp:144-161 | No accept list or back-pointer refers to a deleted user or record |
| `CallerId.Module.ListersOf` | modules/callerid.cpp:378-394 | The back-pointers of a user are exactly the records that list them, but for lost entries |
| `CallerId.Module.GetOrCreate` | modules/callerid.cpp:130-142 | Creates an empty record if there is none and changes nobody's accept list |
| `CallerId.Module.OnDelete` | modules/callerid.cpp:144-161 | Takes a record out of the back-pointers of everyone it accepts; (1) is reported if and only if one of them has no record, (2) if and only if one has no pointer back |
| `CallerId.Module.Unpoint` | modules/callerid.cpp:144-161 | In a run (1) is never reported, and (2) exactly for a lost entry |
| `CallerId.Module.RemoveFromAllAccepts` | modules/callerid.cpp:378-394 | Removes exactly the pairs that accept the user and are not lost; branch (5) is dead |
| `CallerId.Module.Replace` | modules/callerid.cpp:106-111 | Replacing a record removes its entries, and every entry of somebody else for its owner is lost |
| `CallerId.Module.Load` | modules/callerid.cpp:113-127 | The new accept list holds exactly the users found that are not quitting |
| `CallerId.Module.FromInternal` | modules/callerid.cpp:101-128 | The user accepts exactly the users found that are not quitting; exactly the others' entries for the user are lost in addition; nothing is lost if and only if there are none |
| `CallerId.Module.AddAccept` | modules/callerid.cpp:286-307 | Succeeds if and only if the pair is new and the list is not full; adds exactly that pair |
| `CallerId.Module.RemoveAccept` | modules/callerid.cpp:309-338 | Succeeds if and only if the pair is there; removes exactly that pair, and reports (4) if and only if it is lost |
| `CallerId.Module.Unlink` | modules/callerid.cpp:318-334 | Removes the entry and its back-pointer; branch (3) is dead and (4) is taken exactly for a lost entry |
| `CallerId.Module.Handle` | modules/callerid.cpp:171-251 | ACCEPT changes the relation only for a target that exists and is not quitting, and only if source or target is local |
| `CallerId.Module.HandleMessage` | modules/callerid.cpp:413-442 | A message is stopped if and only if the recipient has the mode and does not accept the sender, who is local, another user and not privileged; the recipient is told exactly if the cooldown has passed, and the lists stay as they are |
| `CallerId.Module.ReadConfig` | modules/callerid.cpp:465-471 | A new configuration leaves the lists consistent and as they are |
| `CallerId.Module.OnUserPostNick` | modules/callerid.cpp:454-458 | Unless nicks are tracked, a nick change takes the user off all lists but for lost entries |
| `CallerId.Module.QuitUser` | src/usermanager.cpp:196-271 | A quit takes the user off all lists but for lost entries, although the hook only runs for fully connected users |
| `CallerId.Module.Cull` | src/extensible.cpp:81-93 | Deletes a user whom nobody lists, and their record; everyone else's relation is unchanged |
| `CallerId.Module.Unload` | src/modules.cpp:452-460 | Deleting all records in some order reports an inconsistency if and only if an entry is for somebody whose record is gone, or is lost |
| `CallerId.Module.RestoreAll` | modules/core/reloadmodule.cpp:610-632 | Restoring saved lists in some order into an empty module loses exactly the entries for somebody who comes later; nothing is lost if and only if for every saved pair in the order the accepted user comes first |
| `CallerId.Module.Reload` | modules/core/reloadmodule.cpp:686-699 | Everyone accepts the same users as before; a reload is silent and leaves the two directions in agreement if and only if nobody accepts another user |
| `CallerId.StepLosesIff` | modules/callerid.cpp:101-128 | A step loses the first entry if and only if it deserialises a record whose owner somebody else lists |
| `CallerId.NothingLostIff` | modules/callerid.cpp:101-128 | No entry is lost throughout a run if and only if no record is deserialised while somebody else lists its owner |
| `CallerId.UnlistedRunsAreQuiet` | modules/callerid.cpp:144-161 | Such runs report nothing and never delete a user who is listed |
| `CallerId.ListedRestoreLoses` | modules/callerid.cpp:106-111 | A run that loses an entry; removing it reports (4), and after a quit of the accepted user it is still there |
| `CallerId.StepAcceptsOnlyLiveIff` | modules/callerid.cpp:184-185 | A step keeps it that everyone accepted is there and fully connected, and quitting only if the entry is lost, if and only if it deletes nobody who is still listed |
| `CallerId.RunsAcceptOnlyLiveIff` | modules/callerid.cpp:184-185 | The same throughout a run |
| `CallerId.ListGrowth` | modules/callerid.cpp:289-294 | Apart from deserialising its own record, no step makes a list longer than it was or than the limit |
| `CallerId.StepBoundedIff` | modules/callerid.cpp:286-307 | A step leaves all lists within the limit in force if and only if a record that is deserialised names no more users than the limit, and a new limit is not below the length of any list |
| `CallerId.ListsAreBoundedIff` | modules/callerid.cpp:286-307 | The same throughout a run |
| `CallerId.RestoreExceedsLimit` | modules/callerid.cpp:116-127 | A run with a limit of one and a record with two entries |
| `CallerId.RehashExceedsLimit` | modules/callerid.cpp:465-471 | A run with two entries within a limit of two, which is then lowered to one |
| `CallerId.NewLimitSafeIff` | modules/callerid.cpp:465-471 | A new limit is safe whatever the lists if and only if it is not lower than the old one |
| `CallerId.Network.SameListSize` | modules/callerid.cpp:290 | The size of a stored list is the number of pairs in the relation |
| `CallerId.Network.Perform` | modules/callerid.cpp:286-338 | Each step does to the records what it does to the plain relation, and reports an inconsistency exactly when it walks over a lost entry |
| `CallerId.Network.Run` | modules/callerid.cpp:101-161 | After any sequence of steps, configuration changes included, that deletes nobody who is listed, the records stand for the plain relation after the same steps; an inconsistency was reported if and only if some step walked over a lost entry |
| `CallerId.Network.RunUnlisted` | modules/callerid.cpp:144-161 | While no listed user is deserialised, nothing is reported and the two directions agree |
| `IntrusiveList.Node.Unlink` | include/intrusive_list.h:39-46 | Bridges the gap between the neighbours and clears the node's own links |
| `IntrusiveList.List.PushFront` | include/intrusive_list_impl.h:107-119 | The sequence gets a new first element |
| `IntrusiveList.List.PushBack` | include/intrusive_list_impl.h:127-137 | The sequence gets a new last element |
| `IntrusiveList.List.Erase` | include/intrusive_list_impl.h:145-160 | The sequence loses the element, which has both links null and can be pushed again |
| `IntrusiveList.List.PopFront` | include/intrusive_list_impl.h:97-100 | The sequence loses its first element |
| `IntrusiveList.List.PopBack` | include/intrusive_list_impl.h:139-142 | The sequence loses its last element |
| `IntrusiveList.List.WalkForward` | include/intrusive_list_impl.h:44-95 | Following the next links from the head gives the sequence in exactly size() steps |
| `IntrusiveList.List.WalkBackward` | include/intrusive_list_impl.h:57-68 | Following the previous links from the tail gives its reverse in exactly size() steps |
| `IntrusiveList.Perform` | include/intrusive_list_impl.h:97-160 | One operation refines the same operation on a plain sequence, and nodes outside the list are ready to be pushed |
| `IntrusiveList.PerformAll` | include/intrusive_list_impl.h:97-160 | So does any sequence of operations |
| `FlatContainers.LowerBound` | include/flat_map.h:154-162 | Binary search finds the boundary between the elements less than the key and the others |
| `FlatContainers.UpperBound` | include/flat_map.h:164-172 | Binary search finds the boundary before the elements greater than the key |
| `FlatContainers.EqualRangeIsClass` | include/flat_map.h:144-152 | The range between the bounds is exactly the elements equivalent to the key |
| `FlatContainers.InsertMultiClasses` | include/flat_map.h:195-199 | A new element goes before its equivalents; every other class is unchanged |
| `FlatContainers.InsertMultiSorted` | include/flat_map.h:195-199 | The vector stays sorted |
| `FlatContainers.InsertSingleClasses` | include/flat_map.h:181-193 | The first insertion of a class wins; every other class is unchanged |
| `FlatContainers.InsertSingleStrictlySorted` | include/flat_map.h:181-193 | The vector stays strictly sorted |
| `FlatContainers.EraseKeyClasses` | include/flat_map.h:117-123 | Exactly the equivalent elements go |
| `FlatContainers.EraseKeySorted` | include/flat_map.h:117-123 | The vector stays sorted, strictly if it was |
| `FlatContainers.SameClassesSameElements` | include/flat_map.h:144-152 | Lists that agree on every class hold the same elements the same number of times |
| `FlatContainers.MultiAgrees` | include/flat_map.h:421-431 | After any operations each class of a multi container is what an unordered list says: most recently inserted first |
| `FlatContainers.MultiHoldsInserted` | include/flat_map.h:296-306 | After any operations the contents are the inserted multiset less what was erased |
| `FlatContainers.SingleAgrees` | include/flat_map.h:354-374 | After any operations each class of a single container holds at most one element: the first inserted since the class was erased |
| `FlatContainers.FlatBase.Find` | include/flat_map.h:125-142 | Finds what a linear search for an equivalent element finds |
| `FlatContainers.FlatBase.EqualRange` | include/flat_map.h:144-152 | Returns exactly the range of equivalent elements |
| `FlatContainers.FlatBase.Count` | include/flat_map.h:174-178 | The number of equivalent elements |
| `FlatContainers.FlatBase.Erase` | include/flat_map.h:117-123 | Erases the class and returns how many elements it had |
| `FlatContainers.FlatBase.InsertOne` | include/flat_map.h:181-193 | Inserts if and only if the class is empty, and returns the position of the element of the class |
| `FlatContainers.FlatBase.InsertEquivalent` | include/flat_map.h:195-199 | Inserts at the returned position and stays sorted |
| `FlatContainers.InsertAllClasses` | include/flat_map.h:359-364 | After inserting a range, classes that had an element are unchanged and the others hold their first element of the range |
| `FlatContainers.FlatBase.InsertRange` | include/flat_map.h:359-364 | Inserting a range into any container is inserting its elements in order |
| `FlatContainers.Subscript` | include/flat_map.h:371-374 | operator[] gives the value of the first equivalent entry, or inserts a default one |
| `Events.OrdersAreStrictWeak` | include/event.h:203-215 | Both comparators are strict weak orders |
| `Events.ComesBefore` | include/event.h:203-215 | The finer comparator goes by lower priority and then by lower address; the coarser one by lower priority |
| `Events.EquivalentIffSame` | include/event.h:208-215 | Under the finer comparator only a listener itself is equivalent to it |
| `Events.SubscriberOccurrences` | include/event.h:94-107 | After any requests a listener is in the list once for every subscription since it last unsubscribed; other listeners' requests do not matter |
| `Events.OccurrencesAfter` | include/event.h:94-107 | A subscription adds one occurrence of its listener, a cancellation removes all of its own, and other listeners are untouched |
| `Events.PriorityAloneRemovesOthers` | include/event.h:203-206 | Under the coarser comparator unsubscribing one listener would remove another of the same priority |
| `Events.FirstAnswerPasses` | include/event.h:240-250 | The result is PASSTHRU if and only if every live listener passes |
| `Events.FirstAnswerIsLeast` | include/event.h:240-250 | Otherwise it is the answer of the least live listener that does not pass |
| `Events.ModuleEventProvider.Subscribe` | include/event.h:94-98 | The list holds the listener once more and the others as before, and the callback is made |
| `Events.ModuleEventProvider.Unsubscribe` | include/event.h:103-107 | The list does not hold the listener any more and the others as before, and the callback is made |
| `Events.ModuleEventProvider.Call` | include/event.h:217-231 | The hooks run in ascending order of priority and then address, for each live listener as often as it is subscribed and for no other; none if the provider is dead |
| `Events.ModuleEventProvider.FirstResult` | include/event.h:233-251 | PASSTHRU if and only if no live subscriber answers; else the answer of one such that every live subscriber of lower priority, or of the same priority and lower address, passes |
| `DelayJoin.RevealKeeps` | modules/delayjoin.cpp:240-258 | Showing a hidden member keeps every client's picture right |
| `DelayJoin.JoinKeeps` | src/channels.cpp:172-208 | So does a join: the others learn of the newcomer by JOIN unless hidden, the newcomer of the others by NAMES |
| `DelayJoin.LeaveKeeps` | modules/delayjoin.cpp:116-127 | So does leaving: exactly those who knew of the member are told |
| `DelayJoin.SpeakKeeps` | modules/delayjoin.cpp:222-238 | So does a message: its author is shown to everyone before it is sent |
| `DelayJoin.SetDelayKeeps` | modules/delayjoin.cpp:52-65 | So does a change of mode D, after which nobody on the channel is hidden |
| `DelayJoin.SendNamesKeeps` | modules/delayjoin.cpp:155-166 | So does a NAMES reply |
| `DelayJoin.NeighborsKnowUser` | src/users.cpp:782-833 | The neighbours of a user are exactly the other local clients that know the user from some channel, each once |
| `DelayJoin.ChangeNickKeeps` | modules/delayjoin.cpp:210-220 | So does a nick change: only clients who know the user are told |
| `DelayJoin.QuitKeeps` | src/usermanager.cpp:232-245 | So does a quit: only clients who know the user are told, and they forget them |
| `DelayJoin.PerformKeeps` | modules/delayjoin.cpp:194-281 | Every step keeps every local client's picture right and every delivery sensible |
| `DelayJoin.RunConsistent` | modules/delayjoin.cpp:52-281 | In every run a local client knows of another member exactly when it shares the channel and the member is not marked; only channels with mode D have marked members |
| `DelayJoin.PerformSends` | modules/delayjoin.cpp:52-281 | A step sends every delivery that is due, once, and nothing else, to local users only |
| `DelayJoin.RunSends` | modules/delayjoin.cpp:52-281 | In every run each delivery was made as often as it was due |
| `DelayJoin.PerformChanges` | modules/delayjoin.cpp:52-281 | A step changes memberships, marks and modes exactly as it should: a prefix mode or a message shows the member, and the mode is what was set |
| `DelayJoin.MessageReaches` | src/channels.cpp:298-320 | A channel message goes to every local member but its author and those it does not reach |
| `DelayJoin.JoinOncePerStay` | modules/delayjoin.cpp:91-99 | Between two JOINs of the same member to the same client, the client was told that the stay had ended |
| `DelayJoin.OnlyKnownMembersAreHeard` | modules/delayjoin.cpp:200-238 | No PART, KICK or message about a member reaches a client that did not know that member at that time; for the source of a KICK see the next rows |
| `DelayJoin.KickReaches` | modules/delayjoin.cpp:205-208 | A kick reaches every local member, but only the victim if the victim is hidden |
| `DelayJoin.KickerKnownIff` | modules/delayjoin.cpp:205-208 | Whoever a kick reaches, other than the kicker, knows the kicker if and only if the kicker is not hidden |
| `DelayJoin.HiddenKickerIsNamed` | modules/delayjoin.cpp:205-208 | A kick by a hidden member names them to every other local member, none of whom knows them, unless the victim is hidden too |
| `DelayJoin.HiddenKickerExists` | modules/delayjoin.cpp:194-208 | A run in which such a kick happens: one member joins, mode D is set, another joins and kicks the first |
| `DelayJoin.HiddenMemberExists` | modules/delayjoin.cpp:194-198 | A member who joins under mode D is hidden from the next one |
| `DelayJoin.ModuleDelayJoin.WriteChannel` | src/channels.cpp:298-320 | Sends to the local members that are not excepted, by an exception list or by rank |
| `DelayJoin.ModuleDelayJoin.RevealUser` | modules/delayjoin.cpp:240-258 | Removes the mark and sends the JOIN to the others, if there is a mark |
| `DelayJoin.ModuleDelayJoin.OnModeChange` | modules/delayjoin.cpp:52-65 | Changes the mode and shows all members one after the other |
| `DelayJoin.ModuleDelayJoin.PopulateExcepts` | modules/delayjoin.cpp:116-127 | Excepts the other local members if and only if the member was marked, and removes the mark |
| `DelayJoin.ModuleDelayJoin.PartUser` | src/channels.cpp:267-283 | A part is a step of the run |
| `DelayJoin.ModuleDelayJoin.KickUser` | src/channels.cpp:285-296 | A kick is a step of the run |
| `DelayJoin.ModuleDelayJoin.OnUserJoin` | modules/delayjoin.cpp:194-198 | Marks a newcomer if and only if the channel has the mode; a time of zero is no mark |
| `DelayJoin.ModuleDelayJoin.SendJoin` | modules/delayjoin.cpp:91-99 | The hook drops a JOIN for everyone but the member while the member is marked |
| `DelayJoin.ModuleDelayJoin.ForceJoin` | src/channels.cpp:172-208 | A join is a step of the run: enter, mark, announce, then NAMES to the newcomer |
| `DelayJoin.ModuleDelayJoin.NamesTo` | modules/core/channel/cmd_names.cpp:77-113 | Lists the members that are not marked, and the asking user |
| `DelayJoin.ModuleDelayJoin.ChannelMessage` | modules/delayjoin.cpp:222-238 | A message, to all of a channel or to some ranks, is a step of the run: show the author, then send |
| `DelayJoin.ModuleDelayJoin.OnBuildNeighborList` | modules/delayjoin.cpp:210-220 | Erases exactly the memberships with a mark while it iterates |
| `DelayJoin.ModuleDelayJoin.ForEachNeighbor` | src/users.cpp:782-833 | Visits each local user of the remaining channels once, without the user itself |
| `DelayJoin.ModuleDelayJoin.ChangeNickOf` | src/users.cpp:782-833 | A nick change is a step of the run |
| `DelayJoin.ModuleDelayJoin.Quit` | src/usermanager.cpp:232-245 | A quit is a step of the run |
| `Words.BitsMeetIff` | include/modules/cap.h:29-30 | The bits at two positions of a 64-bit word overlap if and only if the positions are the same |
| `Words.AddToMaskPositions` | include/modules/cap.h:155 | AddToMask adds one position to a word |
| `Words.HasPositionIff` | modules/cap.cpp:66-73 | Testing a word against a mask tests a position |
| `Words.DelFromMaskPositions` | include/modules/cap.h:156 | DelFromMask removes one position from a word |
| `Capabilities.AllocationFailsIff` | modules/cap.cpp:75-88 | There is no free bit if and only if 63 capabilities are registered |
| `Capabilities.AddCapKeeps` | modules/cap.cpp:162-176 | Registering keeps bits distinct and every user's word within the registered bits and the 3.02 bit |
| `Capabilities.AddCapMeaning` | modules/cap.cpp:162-176 | Registering gives no user the new capability, whoever had its bit before |
| `Capabilities.DelCapKeeps` | modules/cap.cpp:178-196 | Unregistering keeps the same |
| `Capabilities.DelCapMeaning` | modules/cap.cpp:178-196 | Unregistering takes the capability, and nothing else, from everyone |
| `Capabilities.RegistrationSafeIff` | modules/cap.cpp:162-176 | While a bit is free, every continuation without a taken name, and one more registration, keeps bits distinct if and only if the registered name was free |
| `Capabilities.TakenNameSharesBit` | modules/cap.cpp:75-88 | After registering a taken name, the next capability registered gets the same bit |
| `Capabilities.SharedBitGivesBoth` | modules/cap.cpp:219-241 | Whoever then requests that capability by its name has both |
| `Capabilities.RegisteringKeepsNames` | modules/cap.cpp:162-196 | The name map only leads to registered capabilities, even if a name is taken |
| `Capabilities.RequestRefines` | modules/cap.cpp:219-241 | A request on the word is the same request on the set of enabled capabilities; other positions are untouched |
| `Capabilities.LastMentionDecides` | modules/cap.cpp:219-241 | After an accepted request the last mention of each capability decides; those not mentioned are as before |
| `Capabilities.AcceptedIff` | modules/cap.cpp:66-73 | A request is accepted if and only if each token names a registered capability that is in the wanted state by then or allows the change |
| `Capabilities.RequestMeans` | modules/cap.cpp:219-241 | After an accepted request a user has a capability if and only if the last token about it has no minus sign, or there is none and they had it before |
| `Capabilities.LastTokenDecides` | modules/cap.cpp:225-236 | A request that ends in a minus sign and a name takes that capability away, one that ends in the bare name gives it |
| `Capabilities.LastTokenDecidesWord` | modules/cap.cpp:225-240 | The same for the words |
| `Capabilities.AcceptedTextIff` | modules/cap.cpp:66-73 | Acceptance in terms of the text of the tokens: a name without a minus sign must be enabled or may be turned on, one with it must not be enabled or may be turned off |
| `Capabilities.PerformRefines` | modules/cap.cpp:162-241 | Every step on the bits is the same step on the relation and keeps the invariant |
| `Capabilities.RunRefines` | modules/cap.cpp:75-241 | In every run the bits are the plain relation, so a reused bit never gives anyone a capability they did not request |
| `Capabilities.StepEnables` | modules/cap.cpp:162-277 | What each step gives and takes: only requests give, and unregistering, clearing and requests take |
| `Capabilities.StepRegisters` | modules/cap.cpp:162-196 | Which names are known after each step; registering enables nothing for anyone |
| `Capabilities.StepSpeaks302` | modules/cap.cpp:209-217 | Version 3.02 is only ever turned on |
| `Capabilities.EnabledWasRequested` | modules/cap.cpp:75-241 | Whoever has a capability after a run had it from the start or requested it last, and it has not been unregistered since: a reused bit gives nobody what they did not request |
| `Capabilities.RestoreRefines` | modules/cap.cpp:118-144 | Restoring on the bits is restoring on the relation |
| `Capabilities.RestoreGivesBack` | modules/cap.cpp:90-144 | What a user has after saving, any coming and going of the module's capabilities, and restoring is what they had, less the names that did not return |
| `Capabilities.ReloadRestores` | modules/cap.cpp:90-196 | The same on the bits, whatever new bits are allocated |
| `Capabilities.ManagerImpl.AllocateBit` | modules/cap.cpp:75-88 | The first position that no capability in the map holds, if any |
| `Capabilities.ManagerImpl.AddCapability` | modules/cap.cpp:162-176 | Registers as the step does; fails if and only if the capability is not registered afterwards |
| `Capabilities.ManagerImpl.DelCapability` | modules/cap.cpp:178-196 | Unregisters as the step does |
| `Capabilities.ManagerImpl.HandleReq` | modules/cap.cpp:219-241 | All or nothing: a refused request changes no word, an accepted one stores the left-to-right result |
| `Capabilities.ManagerImpl.HandleToken` | modules/cap.cpp:225-236 | A token with a minus sign removes the position of its name from the word, one without adds it, or it is refused |
| `Capabilities.ManagerImpl.OnReloadModuleSave` | modules/cap.cpp:90-116 | Saves exactly the names of the module's capabilities, and for each exactly the users with its bit |
| `Capabilities.ManagerImpl.TurnOn` | modules/cap.cpp:130-141 | Sets the bit for exactly those of the users that are still there |
| `Capabilities.ManagerImpl.OnReloadModuleRestore` | modules/cap.cpp:118-144 | Restores as the function on words does |
| `NickCollisions.OldestHolds` | modules/codepage.cpp:290-305 | A claim that is strictly the oldest for its nick holds it after claims in any order |
| `NickCollisions.RivalOrder` | modules/codepage.cpp:290-305 | If another claim is at least as old, some order of the same claims takes the nick away |
| `NickCollisions.WinsInEveryOrderIff` | modules/codepage.cpp:276-308 | A claim wins in every order if and only if it is strictly the oldest |
| `NickCollisions.OutcomeSettledIff` | modules/codepage.cpp:290-305 | All orders of the claims to a nick lead to the same outcome if and only if there is a strictly oldest claim, or all are equally old and even in number |
| `NickCollisions.TieDependsOnOrder` | modules/codepage.cpp:290-305 | Claims of times 5, 5 and 7 lead to different outcomes in different orders |
| `NickCollisions.VisitOrderFor` | modules/codepage.cpp:276-308 | Every order of the claims to a nick comes from some order of visits |
| `NickCollisions.VisitOrderIrrelevantIff` | modules/codepage.cpp:276-308 | Who ends up with a nick is the same in every order of visits if and only if one contender is strictly the oldest, or all are equally old and even in number |
| `NickCollisions.SameOutcomeIff` | modules/codepage.cpp:276-308 | Everyone ends up with the same nick in every order of visits if and only if every nick is settled in that sense |
| `NickCollisions.EntitledAreDistinct` | modules/codepage.cpp:276-308 | No two users are entitled to equivalent nicks |
| `NickCollisions.VisitKeeps` | modules/codepage.cpp:279-306 | A visit contests the nick against its current holder; everyone else is as before |
| `NickCollisions.OldestKeepsNick` | modules/codepage.cpp:276-308 | In any visit order, a user who took a nick strictly before all others with an equivalent one keeps it, alone |
| `NickCollisions.LocalUsers.VisitOne` | modules/codepage.cpp:281-306 | One round of the loop does to the state what one visit does |
| `NickCollisions.LocalUsers.CheckDuplicateNick` | modules/codepage.cpp:276-308 | Exactly the entitled users keep their nick, the others have their identifier, remaining nicks are pairwise not equivalent, and times change only for those who lost a nick |
| `Codepage.SingleByteCodepage.AllowCharacter` | modules/codepage.cpp:124-139 | Allows the character unless the rules forbid it; the front permission is the one asked for last |
| `Codepage.SingleByteCodepage.AllowRange` | modules/codepage.cpp:369-398 | Ends for every 32-bit end; succeeds if and only if no character of the range is forbidden, and allows exactly those |
| `Codepage.SingleByteCodepage.ReadRanges` | modules/codepage.cpp:368-398 | Succeeds if and only if every range is acceptable; allows exactly the covered characters, at the front as the last covering range says |
| `Codepage.SingleByteCodepage.IsValidNick` | modules/codepage.cpp:141-160 | Accepts exactly the nicks of allowed length, first character and characters |
| `Codepage.AllowedAreValid` | modules/codepage.cpp:53-101 | After acceptable ranges no forbidden character is allowed, and none at the front that is forbidden there |
| `Codepage.NeverValidIs` | modules/codepage.cpp:82-95 | The characters that are never allowed are NUL, line ends, space and !*,.?@ |
| `Codepage.NeverFirstIs` | modules/codepage.cpp:55-76 | Those that are never first are digits, $ and :, and prefixes |
| `Codepage.ConfigureAndCheck` | modules/codepage.cpp:360-398 | After a successful configuration an accepted nick has no forbidden character and no forbidden first character |
| `ChannelHistory.RunIsEndOfLog` | modules/chanhistory.cpp:66-76 | In every run the list is the end of the log and within its limit |
| `ChannelHistory.PerformKeepsReason` | modules/chanhistory.cpp:124-152 | Unless limits are raised, whatever was dropped is beyond the length limit or expired |
| `ChannelHistory.RunKeepsReason` | modules/chanhistory.cpp:124-291 | The same over whole runs with a clock that never goes back |
| `ChannelHistory.ReplayIsRecentLog` | modules/chanhistory.cpp:266-291 | While limits are not raised, a replay is the last messages of the log up to the length limit, without the expired ones |
| `ChannelHistory.ReplayShows` | modules/chanhistory.cpp:66-76 | A replay shows a message as often as it is among the last ones, if its age is at most the limit, and otherwise not |
| `ChannelHistory.LimitChangeSafeIff` | modules/chanhistory.cpp:136-146 | A change of limits is safe for every history if and only if it raises neither |
| `ChannelHistory.RaisedLimitLosesHistory` | modules/chanhistory.cpp:139-145 | A run in which raising a limit does not bring back a message |
| `ChannelHistory.HistoryList.PruneLines` | modules/chanhistory.cpp:66-76 | Drops messages from the front while they have expired; that the subtraction of times saturates makes no difference |
| `ChannelHistory.ModuleChanHistory.Clamp` | modules/chanhistory.cpp:92-109 | A local user is held to the configured limit and otherwise gets what they ask for; a remote user always does |
| `ChannelHistory.ModuleChanHistory.OnSet` | modules/chanhistory.cpp:83-152 | Refuses a missing limit; otherwise sets the limits, cut to the most a local user may ask for, and shrinks the list |
| `ChannelHistory.ModuleChanHistory.OnUserPostMessage` | modules/chanhistory.cpp:245-264 | Records messages to the whole channel, except from bots that are not saved and CTCPs other than ACTION |
| `ChannelHistory.ModuleChanHistory.OnPostJoin` | modules/chanhistory.cpp:266-291 | Shows a local user who wants history the list after pruning, with a notice if configured and not batched |
| `DenyChannels.CheckRedirects` | modules/denychans.cpp:112-140 | Succeeds if and only if every redirect target is whitelisted or not forbidden |
| `DenyChannels.ModuleDenyChannels.ReadConfig` | modules/denychans.cpp:112-145 | Replaces the configuration if it is checked; otherwise the old one stays |
| `DenyChannels.ModuleDenyChannels.OnUserPreJoin` | modules/denychans.cpp:147-186 | For the first forbidden entry that matches: pass if and only if an operator may enter that entry or the name is whitelisted; else redirect if and only if there is a target the user may be sent to; else refuse |
| `DenyChannels.DecisionIs` | modules/denychans.cpp:147-186 | The decision entry by entry, on which the theorems rest |
| `DenyChannels.RedirectsNeverChain` | modules/denychans.cpp:147-186 | Under a checked configuration whoever is redirected gets past this module at the target, for any match relation |
| `DenyChannels.CheckedIffTargetsOpen` | modules/denychans.cpp:112-140 | The check accepts exactly the configurations in which every redirect target lets ordinary users in |

## Left out

- Sockets, logging, configuration files, numerics and notices shown to users: input and output. What is sent only appears where packing or delivery is the property.
- Tokenising and number parsing (ACCEPT and CAP REQ lists, mode parameters): the model starts from tokens and numbers. Case mapping is an arbitrary function, glob matching an arbitrary relation, and `OnRequest` of a capability an arbitrary policy.
- `NumericBuilder.GenericParamBuilder.AddStatic`: leading parameters are added before the first entry, as all callers do.
- `NumericBuilder.GenericParamBuilder.Add`: assumes that all leading parameters have been added; before that an entry would take the place of one.
- `NumericBuilder.GenericParamBuilder.Flush`: assumes the same; before that the source erases past the end.
- `CapListing.AppendAllIsAddEntries`: assumes that no capability name is empty; `CapListing.DisplayResult` does not.
- The variant of the intrusive list without a tail pointer; it has the same code without the tail updates.
- `CallerId.Module.Cull`: is not used for a user whom somebody still lists through a lost entry; see the next line.
- `CallerId.Network.Run`: does not model what happens after a user is deleted whom somebody still lists through a lost entry, since the source then reads freed memory.
- `CallerId.Module.Reload`: assumes that no user is between quit and deletion, as deletions are made before a reload starts (`src/inspircd.cpp:780-782`), and that users are not added or removed meanwhile.
- Events: listeners that subscribe or unsubscribe while a hook runs.
- Delayed joins: WHO replies, TOPIC and MODE messages of hidden members, JOINs generated by other modules, and NAMES by users outside the channel.
- `DelayJoin.ModuleDelayJoin.NamesTo`: does not model the prefixes shown with a name; members see invisible members.
- `DelayJoin.ModuleDelayJoin.ForEachNeighbor`: does not model exceptions that other modules add.
- Capabilities: values, the events sent when capabilities come and go, CAP END and holding registration, and the selection of capabilities in `HandleList`. A `size_t` of 64 bits is assumed.
- `Codepage.SingleByteCodepage.ReadRanges`: does not model the tags that map upper to lower case.
- Codepage: link data, `CheckDuplicateChan`, `CheckInvalidNick` and `CheckRehash`. Nick changes are assumed not to be refused.
- `ChannelHistory.ReplayIsRecentLog`: assumes that limits are never raised; `ChannelHistory.LimitChangeSafeIff` states that no weaker condition on a change of limits is safe for every history.
- Channel history: batches and tags of a replay.
- Single-branch policy modules, hashing, cloaking, linking and the mode parser.
