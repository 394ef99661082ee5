# Leapfrog core, modelled and proved in Dafny

The core of the Leapfrog messenger sits between XMPP accounts and a separate user interface. This
project models the parts of it that keep several views of one state in agreement, and proves that
they stay so:

- **Roster bridge** (`RosterModel`, `RosterInvariant`, `RosterMirror`, `RosterOps`, `RosterRuns`,
  `RosterHidden`, `RosterServer`, `RosterTags`, `RosterTransport`, `RosterEmptied`,
  `RosterEffects`, `RosterTexts`, `RosterPlaces`, `RosterMoves`, `RosterRemovals`, `RosterActive`,
  `RosterExamples`, `LfpApi`). Groups, contacts and entries point at each
  other and are indexed by identifier, address and tag. `RosterModel` gives each operation as a
  function on a roster value. The lemmas prove a whole-graph invariant over every run, that replaying
  the queued notifications rebuilds the roster, that servers are told of every local change and removal,
  and what each operation makes of contacts, groups and entries, told from the values before and after.
  `LfpApi` has the same objects on the heap, with methods that are proved to do to the view of these
  objects what the functions say.
- **Group chats** (`MucModel`, `MucInvariant`, `MucRuns`, `MucEffects`, `MucExamples`, `GroupChats`), again as a value and as objects.
- **Wire format** (`WireFormat.dfy`) of calls across the bridge, and the **call queue** (`CallQueue`)
  that carries them from bridge threads to the Qt thread, as interleaved steps around one lock.
- **Entity capabilities** (`CapsModel`, `CapsProperties`, `CapsKnowledge`, `CapsMeaning`, `CapsManager`; XEP-0115 in its form with
  extensions), the **metacontacts directory** (`MetacontactsModel.dfy`, `MetacontactsProperties`,
  `MetacontactsSaves`, `MetacontactsEdits`, `MetacontactsHistory`, `MetacontactsDirectory`), **avatars**, the **vCard cache** and **file transfers**.
- **Encodings** with their exact round trips: `JidUtil`, `TextCodecs`.

`dafny verify dfyconfig.toml` checks the whole project.

## How to read it

An event-driven component is a datatype for its state, a function for each event, a predicate for what
holds in every reachable state, and lemmas over runs. Where the C++ code changes objects or fields in
place there is a class beside it; the postcondition of each method equates the view of the new state
with the function applied to the view of the old one, so the lemmas about the functions speak about the
methods too.

What the code relies on without checking it is stated once, for the roster in `RosterRuns.Legal`:
positions in moves are inside the list; addresses are not empty and are bare and normalised; group names
in pushes are not empty; a hidden entry that already has groups is adopted by a push without groups only
if it heads its contact's list (exactly otherwise the code reads the first of no groups, as
`RosterEffects.AdoptOkExact` shows); an entry has a name when a contact has to be made for it; new tags
are unused. Replies about capabilities name two parts at least, so node and extension are not made of
separators only; if a separator stands inside one, the reply is dropped or misfiled. A run starts with `rosterStart`. The own
occupant of a group chat is null at first.

Findings, each with the exact condition under which the code does what its comments or its users expect:

- Removing a gateway takes other accounts' entries with it when they were filed later under the same
  address (`RosterTransport.RemoveTransportExact`), and may leave their contacts without entries
  (`RosterEmptied.RemoveTransportContacts`).
- Clearing a metacontact tag does not split an entry out when the contact of its name is a tagged one:
  the code asks for a new contact by the same name and is given the old one (`RosterTags.TagFollowed`).
- An advertisement of capabilities without node or version drops known features without a signal
  (`CapsProperties.ChangesAreReported`); a disco reply that comes after a newer advertisement is filed
  under the newer version (`CapsProperties.RepliesFiledRight`).
- An avatar hash announced again while another one is being fetched does not stop the late reply from
  being shown (`Avatars.LastAnnouncementFollowed`); a picture that could not be asked for, or whose reply
  was empty, is not asked for again before the next announcement (`Avatars.LastAnnouncementRequested`).
- Negative metacontact orders are stored as none but announced (`MetacontactsProperties.StepMirrors`);
  an edit made while a download is being taken over is kept without being due to be saved
  (`MetacontactsEdits.EditsDuringDownload`).
- A vCard set locally is lost when the cache drops it (`VCardFactory.CardFound`).
- An argument of an unknown kind loses its name with its value; so does a value in a map
  (`WireFormat.ArgumentsRoundTrip`).
- A push that adopts a hidden contact rewrites the groups of all its entries, and the servers of the
  other ones are not told (`RosterServer.KnownAfterAdding`). Without groups it can make the bridge read
  the first of none, in rosters a run does reach (`RosterExamples.PushReadsNone`).
- An entry without a name, which a chat from a stranger makes, cannot be given a contact of its own: a push
  or a tag that asks for one leaves the bridge without a contact, which it does not check
  (`RosterEffects.UpdateOkExact`, `RosterEffects.TagOkExact`).
- A failed save of the metacontacts is not tried again until the next edit
  (`MetacontactsSaves.StrandedIfFailed`), and a specification whose question failed, was filed under
  another one or was not asked stays unknown while it is listed (`CapsKnowledge.AdvertisedKnownOrAsked`).
- A nickname changed to one in use gives two occupants one address (`MucRuns.StepDistinct`). A nickname
  changed to itself deletes the occupant, and one changed by one of two occupants of an address deletes the
  other (`MucRuns.NickChangeKeepsOccupant`).
- `_at_` is restored only from position 3 on (`JidUtil.DecodeEncode`), and progress blocks overflow from
  2 to the 46 bytes on (`ProgressSteps.BlockFits`).

## Model

| member | source | states |
|---|---|---|
| RosterRuns.MembershipBothWays | core/lfp_api.cpp:1080-1314 | In every reachable roster a contact occurs in a group exactly as often as the group occurs on the contact, only live contacts are listed, and every contact is in at least one live group |
| RosterRuns.EntryOnceEverywhere | core/lfp_api.cpp:1353-1481 | In every reachable roster an entry sits once in the list of the contact it names and in no other, once in the address index and under no other address; a look-up of its account and address finds it; no second entry has them; its main group is empty or one of its groups |
| RosterRuns.IndexesExact | core/lfp_api.cpp:317-448 | In every reachable roster the list of groups, the multimap by bare address and the map by metacontact tag hold exactly the live objects under their present keys, each group and each entry once |
| RosterRuns.ReplayRebuildsRoster | lilypad/Sources/LPRoster.m:467-635 | A receiver fed only the queued notifications, in order, never meets an unknown identifier and ends with exactly the core's groups, contacts with names and memberships, and entries with contact and subscription state |
| RosterMirror.OnceWithout | lilypad/Sources/LPRoster.m:538-571 | The receiver, which lists a contact in a group at most once, still agrees with the core after a removal when the core listed it several times |
| RosterRuns.BuiltInGroupsStay | core/lfp_api.cpp:646-670 | In every reachable roster there is one general group and one for people not in the list, and every other group is a user group |
| RosterRuns.RunSound | core/lfp_api.cpp:955-2112 | The whole-graph invariant and the agreement of the replayed copy hold after every run of events |
| RosterRuns.StepSound | core/lfp_api.cpp:955-2112 | Every event keeps the whole-graph invariant and the agreement of the replayed copy |
| RosterRuns.RemoveAccountExact | core/lfp_api.cpp:856-871 | Deleting an account, though each removal changes the maps being walked, removes all its entries and no other; the others stay the same, with the same contact and in both indexes; exactly the contacts all of whose entries were the account's go, and of the groups only user groups with no contact left; no server is told |
| RosterRuns.SweepEntryEffect | core/lfp_api.cpp:858-869 | One removal of that walk takes out one entry, its contact if it has none left, and at most one emptied user group |
| RosterTransport.RemoveTransportExact | core/lfp_api.cpp:833-854 | Removing a gateway leaves no entry of the account there and all entries elsewhere; it spares the other accounts' entries if and only if the account's own come first under their addresses, and then exactly the contacts with no other entries go |
| RosterTransport.RemoveTransportEffect | core/lfp_api.cpp:833-854 | In all rosters, exactly the entries filed no earlier than one of the account under the same gateway address go; the others stay the same, a contact goes only if it lost all its entries, and the graph stays whole |
| RosterEmptied.RemoveTransportContacts | core/lfp_api.cpp:833-854 | Removing a gateway takes a contact if and only if all its entries are removed and the account has one of them under the last of their addresses; if all are removed and it has not, the contact stays without entries |
| RosterTransport.AtHostIs | core/lfp_api.cpp:839 | The addresses of a gateway are its own one and those that end in an at sign and its name |
| RosterTransport.VisitNext | core/lfp_api.cpp:837-851 | While the entries found under an address are looked through, the next one is still alive whatever was removed before, and what is removed is the first one there |
| RosterTransport.KeysListed | core/lfp_api.cpp:835 | Each address is visited as often as there are entries under it, which is what lets the walk reach the account's own entry |
| RosterHidden.HiddenUntilAdopted | core/lfp_api.cpp:1199-1201 | Over every run: a contact whose first group is "not in list" keeps it first until the contact is removed or a roster push adds one of its entries |
| RosterHidden.StepHidden | core/lfp_api.cpp:1193-1314 | No event but such a push takes a contact out of "not in list" |
| RosterServer.ServersKnow | core/lfp_api.cpp:1134-1481 | After any event but a push, for each entry that was there and still is: either its server heard nothing and its name and groups are unchanged, or the last stanza about it carries exactly the name and groups it has now |
| RosterServer.PushesNotSentBack | core/lfp_api.cpp:1680-1872 | Handling a roster push sends no stanza, so pushes never echo |
| RosterServer.EntryAddTold | core/lfp_api.cpp:1353-1424 | Adding or taking over an entry leaves what the servers know of the entries there before as right as it was: unchanged and unheard of, or committed as they are now |
| RosterServer.NewEntryCommitted | core/lfp_api.cpp:1386-1415 | The last stanza about a new entry of a contact in the list carries exactly the name and groups the entry has |
| RosterServer.KnownAfterAdding | core/lfp_api.cpp:1680-1730 | After a push that adds an item: an entry is still what its server was last told if and only if it is not in a hidden contact the push adopts, or has the pushed groups already |
| RosterServer.KnownAfterUpdating | core/lfp_api.cpp:1772-1851 | After a push that changes an item: every other entry is still what its server was last told, and the pushed one if and only if the push repeats its name and groups |
| RosterServer.GroupRenameTold | core/lfp_api.cpp:1013-1041 | After a renaming each server knows as much as before of the entries there: unchanged and unheard of, or committed as they are now |
| RosterTags.TagFollowed | core/lfp_api.cpp:2051-2112 | After a reported tag change the entry is with a contact carrying that tag, if and only if it is not stuck (tag cleared while the contact found by its name is tagged): the new contact the comment speaks of is not made then |
| RosterExamples.OtherAccountsEntryTaken | core/lfp_api.cpp:844 | A run in which removing the gateway of one account deletes another account's entry |
| RosterExamples.StuckExample | core/lfp_api.cpp:2071-2090 | A run after which clearing an entry's tag leaves it with its tagged contact |
| RosterExamples.PushReadsNone | core/lfp_api.cpp:1728-1730 | A run after which a push without groups makes the bridge read the first of no groups |
| RosterExamples.PushWithoutName | core/lfp_api.cpp:1808-1833 | A run after which a push without a name leaves the bridge without a contact for an entry |
| RosterExamples.TagWithoutName | core/lfp_api.cpp:2084-2096 | A run after which a reported tag does |
| RosterEffects.AdoptOkExact | core/lfp_api.cpp:1724-1734 | While an adopting push is handed to the entries one by one, the first of no groups is read if and only if the push names none and its entry has groups and does not head the contact's list |
| RosterEffects.GroupRemoveEffect | core/lfp_api.cpp:994-1011 | Removing a user group removes just that group and no contact; each contact keeps its other groups in order or, if it has none, is in the general one |
| RosterEffects.ContactRemoveEffect | core/lfp_api.cpp:1116-1132 | Exactly the contact and its entries are gone, from all groups too; all other contacts, entries and lists are the same |
| RosterEffects.ContactAddGroupEffect | core/lfp_api.cpp:1193-1221 | The membership is added last on both sides, and the group's name comes last among those of each of the contact's entries, its main group if it had none; a group it is in already, or none of the user's, changes nothing |
| RosterEffects.ContactRemoveGroupEffect | core/lfp_api.cpp:1269-1314 | The contact keeps its other groups, or lands in the general one, and no other contact changes |
| RosterEffects.EntryRemoveEffect | core/lfp_api.cpp:1426-1448 | Exactly the entry is gone, from its contact's list and from those filed under its address, which keep their order; contacts and groups are otherwise the same |
| RosterEffects.ItemAddedEffect | core/lfp_api.cpp:1680-1770 | An adopted contact is in the pushed group, exactly its entries have the pushed groups and the push's own one the pushed subscription; a new address has one more entry with the pushed address, name (or address), subscription and groups, the first of them its main one, with a contact in the pushed group, filed in front of others of its address; no other entry changes |
| RosterEffects.ItemAddedPlaces | core/lfp_api.cpp:1697-1768 | An adopted contact has the pushed group instead of the hidden one; a new entry comes last with the contact found, or alone with a new one; no other contact changes, and no group but the pushed one is made |
| RosterEffects.UpdateOkExact | core/lfp_api.cpp:1804-1833 | A push that moves an entry leaves the bridge without a contact to move it to if and only if neither push nor entry has a name |
| RosterEffects.TagOkExact | core/lfp_api.cpp:2066-2086 | A tag change leaves the bridge without a contact for the entry if and only if none is found for the tag and the entry has no name |
| RosterEffects.ItemUpdatedEffect | core/lfp_api.cpp:1772-1851 | The entry has the pushed subscription, groups and, if there is one, name, and the first pushed group as its main one if it loses the old; then it is with a contact of its name in the pushed group, and its old contact is gone if and only if that was another one without further entries; no other entry changes |
| RosterEffects.ItemRemovedEffect | core/lfp_api.cpp:1853-1872 | Exactly the item's entry is gone, and its contact if and only if it had no other; all other contacts are the same |
| RosterEffects.SubscriptionEffect | core/lfp_api.cpp:2000-2048 | A stranger's address becomes one hidden contact with one entry first, both announced; then a request, a grant or a loss is announced with the entry, and nothing for other kinds; that is all a known address leads to |
| RosterEffects.ChatFromEffect | core/lfp_api.cpp:2138-2173 | A stranger's address becomes one hidden contact with one unnamed entry, and nothing else changes |
| RosterTags.NestedReport | core/lfp_api.cpp:364-377 | While a contact is being tagged, the change reported back for one of its entries finds the entry in place and only announces it again |
| RosterRemovals.RemovalsTold | core/lfp_api.cpp:1426-1448 | Whatever event takes an entry out, other than its own server's push or the deletion of its account: the last stanza about it asks for its removal, if its account is connected and its contact is not hidden, and otherwise there is none; after those two there is none |
| RosterRemovals.ContactRemovalTold | core/lfp_api.cpp:1116-1132 | In particular when a contact is removed, for each of its entries: its removal is the last its server hears if it is to be told, the account is connected and the contact is in the list, and otherwise it hears nothing |
| RosterRemovals.OnlyRemovalsRemove | core/lfp_api.cpp:955-2173 | No event takes an entry out but the removal of an entry or contact, a removing push, and the removal of an account or gateway |
| RosterTexts.GroupRenameEffect | core/lfp_api.cpp:1013-1041 | The group has the new name, and exactly the entries of contacts listed in it, however often, have that name instead of the old one, their main group following; nothing else changes |
| RosterTexts.GroupRemoveTexts | core/lfp_api.cpp:994-1011 | The entries of the group's contacts lose its name, main group included; other entries, the order and the other groups' lists stay |
| RosterTexts.ContactChangeGroupEffect | core/lfp_api.cpp:1223-1267 | A transfer from the first group cuts and extends the lists on both sides, and the contact's entries lose the name of the one and gain that of the other; from another group, or to or from "not in list", nothing changes |
| RosterTexts.ContactRemoveGroupTexts | core/lfp_api.cpp:1269-1314 | The group's list loses the contact, the general one gains it if that was its last, and the contact's entries lose the group's name |
| RosterTexts.ContactRenameEffect | core/lfp_api.cpp:1134-1155 | The contact and exactly its entries have the new name; nothing else changes |
| RosterTexts.EntryChangeContactEffect | core/lfp_api.cpp:1450-1481 | The entry has the new contact's name and the names of its user groups in order, the first as main group, comes last in its list, and is committed so |
| RosterTexts.EntryTakenOver | core/lfp_api.cpp:1366-1384 | An address the account has is taken over from its contact, which goes if and only if it had no other entry, and committed; if it was hidden, a subscription is asked for |
| RosterTexts.EntryMade | core/lfp_api.cpp:1386-1424 | A new address becomes an entry with the contact's name and the name of its first group, where it is wanted in the list; unless the contact is hidden it is committed and a subscription asked for |
| RosterTexts.FindContactFirst | core/lfp_api.cpp:391-401 | The contact found is the first one of its name in the first group of that kind and name, and none is found if and only if that lists none |
| RosterPlaces.RosterStartEffect | core/lfp_api.cpp:955-964 | Every group is announced once, in list order |
| RosterPlaces.GroupAddEffect | core/lfp_api.cpp:966-992 | A new name makes an empty user group where it is wanted; a known one is given its first group, and an empty one none |
| RosterPlaces.GroupMoveEffect | core/lfp_api.cpp:1043-1064 | The group is at its new place with the others in their order, and exactly the groups displaced are announced |
| RosterPlaces.ContactAddEffect | core/lfp_api.cpp:1080-1114 | A contact of the name is put in the group too; without any, a new one is listed where it is wanted, in that group only |
| RosterPlaces.ContactMoveEffect | core/lfp_api.cpp:1168-1191 | The contact is at its new place in its first group with the others in their order, and exactly the contacts displaced are announced |
| RosterPlaces.CleanUpEffect | core/lfp_api.cpp:824-831 | Exactly the user groups without contacts go, and no contact or entry changes |
| RosterPlaces.ClearOutEffect | core/lfp_api.cpp:858-869 | Taking one entry out on account of another: the latter's contact goes if and only if it is left without entries, and its main group if and only if none of its contacts is left |
| RosterPlaces.MintTagEffect | core/lfp_api.cpp:350-362 | An untagged contact gets the tag and is found under it, and exactly its entries with a reported change are announced |
| RosterMoves.ItemUpdatedPlaces | core/lfp_api.cpp:1804-1851 | A push that moves its entry hands it to a contact in the pushed group, there already or made for it alone; no other contact changes, and no group is made but that one, last, if there was none |
| RosterPlaces.ContactSetAltEffect | core/lfp_api.cpp:1157-1166 | Only the alternative name changes, and is announced with the name |
| RosterMoves.TagKept | core/lfp_api.cpp:2051-2112 | A tag the entry's contact has already only announces the entry again |
| RosterMoves.TagHeld | core/lfp_api.cpp:2066-2111 | An entry whose tag becomes that of a known contact, or is cleared while an untagged contact of its name is in its group, is handed to that one, and nothing else changes |
| RosterMoves.TagFresh | core/lfp_api.cpp:2083-2111 | Otherwise a contact of the entry's name is asked for in its group, given the tag if there is one, and handed the entry |
| RosterEffects.AdoptedEntries | core/lfp_api.cpp:1697-1734 | Each entry of an adopted contact has the pushed groups with the first as its main one, but none if it stands before the push's own entry and that had no groups |
| RosterActive.ConnectedAsReported | core/lfp_api.cpp:1435 | Over every run the accounts taken for connected, whose servers are told of removals, are those whose last report said so |
| RosterOps.GroupRemoveSound | core/lfp_api.cpp:994-1011 | Removing a user group keeps the graph and the replayed copy right |
| RosterOps.RemoveGroupFromAllEmpties | core/lfp_api.cpp:1003-1004 | Taking each listed contact out of a user group, over the list as it was at the start, leaves the group empty |
| RosterOps.GroupRenameSound | core/lfp_api.cpp:1013-1041 | Renaming keeps the graph and the replayed copy right |
| RosterOps.GroupMoveSound | core/lfp_api.cpp:1043-1064 | Moving a group reorders the list and keeps graph and replayed copy |
| RosterOps.ContactAddSound | core/lfp_api.cpp:1080-1114 | Adding a contact, or the group to a contact of that name, keeps graph and replayed copy |
| RosterOps.ContactRemoveSound | core/lfp_api.cpp:1116-1132 | Removing a contact keeps the graph and the replayed copy right |
| RosterOps.RemoveEntriesEmpties | core/lfp_api.cpp:1122-1123 | Removing the entries in a contact's list one by one, while the list shrinks, leaves the contact without entries and everything else in order |
| RosterOps.ContactMoveSound | core/lfp_api.cpp:1168-1191 | Reordering within a group keeps both sides of the membership |
| RosterOps.ContactAddGroupSound | core/lfp_api.cpp:1193-1221 | Adding a contact to a group keeps the graph and the replayed copy right |
| RosterOps.ContactChangeGroupSound | core/lfp_api.cpp:1223-1267 | A transfer, even into a group the contact is already in, keeps multiplicities equal on both sides and the copy in agreement |
| RosterOps.ContactRemoveGroupSound | core/lfp_api.cpp:1269-1314 | Taking a contact out of a group keeps the graph, in which everyone has a group, and the replayed copy right |
| RosterOps.EntryAddSound | core/lfp_api.cpp:1353-1424 | Adding an entry never makes a second one of the same account and address, and keeps indexes and copy |
| RosterOps.EntryRemoveSound | core/lfp_api.cpp:1426-1448 | Removing an entry keeps the graph and the replayed copy right |
| RosterOps.EntryChangeContactSound | core/lfp_api.cpp:1450-1481 | An entry moved is in exactly one list, and the copy knows |
| RosterOps.ItemAddedSound | core/lfp_api.cpp:1680-1770 | A push adding an item keeps the graph and the copy, whether it adopts a hidden contact, finds one of the name or makes one |
| RosterOps.ItemUpdatedSound | core/lfp_api.cpp:1772-1851 | A push changing an item keeps the graph and the replayed copy right, however the entry moves |
| RosterOps.ItemRemovedSound | core/lfp_api.cpp:1853-1872 | A push removing an item keeps the graph and the replayed copy right |
| RosterOps.SubscriptionSound | core/lfp_api.cpp:2000-2048 | A subscription stanza, from a stranger or not, keeps the graph and the replayed copy right |
| RosterOps.ChatFromSound | core/lfp_api.cpp:2138-2173 | A chat, from a stranger or not, keeps the graph and the replayed copy right |
| RosterOps.TagChangedSound | core/lfp_api.cpp:2051-2112 | A tag change keeps the graph, the tag index among it, and the replayed copy right |
| RosterOps.MintTagSound | core/lfp_api.cpp:350-362 | A fresh tag keeps the tag index exact |
| RosterInvariant.FindEntryExact | core/lfp_api.cpp:436-448 | A look-up finds the one entry of the account and address, and nothing if and only if there is none |
| RosterInvariant.NewEntryInv | core/lfp_api.cpp:408-414 | Registering an entry keeps lists and indexes exact |
| RosterInvariant.DeleteEntryInv | core/lfp_api.cpp:416-429 | Unregistering an entry keeps lists and indexes exact |
| RosterInvariant.RetagInv | core/lfp_api.cpp:364-377 | Replacing a contact's tag keeps the tag index exact |
| LfpApi.LfpApi.constructor | core/lfp_api.cpp:646-670 | The objects start as the initial roster with the two built-in groups |
| LfpApi.LfpApi.FindGroup | core/lfp_api.cpp:332-341 | Finds the first group of that kind and name in list order |
| LfpApi.LfpApi.FindContact | core/lfp_api.cpp:391-401 | Finds the first contact of that name in that group |
| LfpApi.LfpApi.FindEntry | core/lfp_api.cpp:436-448 | Finds the account's entry among those indexed under the address |
| LfpApi.LfpApi.RosterStart | core/lfp_api.cpp:955-964 | Announces the groups in list order |
| LfpApi.LfpApi.RosterGroupAdd | core/lfp_api.cpp:966-992 | The objects become the roster in which a user group of that name exists, and its identifier is returned |
| LfpApi.LfpApi.RosterGroupRemove | core/lfp_api.cpp:994-1011 | The objects follow the state machine through the walk over a copy of the contact list, and keep the invariant |
| LfpApi.LfpApi.RosterGroupRename | core/lfp_api.cpp:1013-1041 | The objects follow the state machine: entries of all contacts carry the new name and are committed |
| LfpApi.LfpApi.RosterGroupMove | core/lfp_api.cpp:1043-1064 | The objects follow the state machine; every group whose place changed hands is announced |
| LfpApi.LfpApi.RosterContactAdd | core/lfp_api.cpp:1080-1114 | The objects follow the state machine, and the identifier returned is the contact's |
| LfpApi.LfpApi.RosterContactRemove | core/lfp_api.cpp:1116-1132 | The objects follow the state machine through the shrinking entry list; nothing else is unfiled |
| LfpApi.LfpApi.RosterContactRename | core/lfp_api.cpp:1134-1155 | The objects follow the state machine: all entries renamed and committed |
| LfpApi.LfpApi.RosterContactSetAlt | core/lfp_api.cpp:1157-1166 | Only the alternative name changes, and is announced |
| LfpApi.LfpApi.RosterContactMove | core/lfp_api.cpp:1168-1191 | The objects follow the state machine within the first group |
| LfpApi.LfpApi.RosterContactAddGroup | core/lfp_api.cpp:1193-1221 | Both lists of the membership are written, and the entries committed |
| LfpApi.LfpApi.RosterContactChangeGroup | core/lfp_api.cpp:1223-1267 | Both sides are moved, never from or to "not in list" |
| LfpApi.LfpApi.RosterContactRemoveGroup | core/lfp_api.cpp:1269-1314 | Both sides are cut; the last group is replaced by the general one |
| LfpApi.LfpApi.RosterEntryAdd | core/lfp_api.cpp:1353-1424 | The objects follow the state machine, and the identifier returned is the entry's |
| LfpApi.LfpApi.RosterEntryRemove | core/lfp_api.cpp:1426-1448 | The entry leaves its list and both maps; nothing is filed, no group or contact unfiled |
| LfpApi.LfpApi.RosterEntryChangeContact | core/lfp_api.cpp:1450-1481 | The entry takes over the new contact's name and user groups and is committed |
| LfpApi.LfpApi.ClientRosterItemAdded | core/lfp_api.cpp:1680-1770 | The objects follow the state machine in all four cases of the push |
| LfpApi.LfpApi.ClientRosterItemUpdated | core/lfp_api.cpp:1772-1851 | The objects follow the state machine, with or without a change of group |
| LfpApi.LfpApi.ClientRosterItemRemoved | core/lfp_api.cpp:1853-1872 | The objects follow the state machine, a contact left empty included |
| LfpApi.LfpApi.ClientSubscription | core/lfp_api.cpp:2000-2048 | The objects follow the state machine; a hidden entry is made first if there is none |
| LfpApi.LfpApi.EntryForChat | core/lfp_api.cpp:2140-2173 | Returns the entry of the address, made as a hidden one if there is none |
| LfpApi.LfpApi.MetacontactInfoForJIDDidChange | core/lfp_api.cpp:2051-2112 | The objects follow the state machine for every tag and every target found or made |
| LfpApi.LfpApi.Retag | core/lfp_api.cpp:364-370 | The contact is filed under the new tag and no longer under the old one |
| LfpApi.LfpApi.MintTag | core/lfp_api.cpp:350-362 | An untagged contact is filed under the given tag, and its entries' directories are told |
| LfpApi.LfpApi.RemoveAllContactEntriesForAccount | core/lfp_api.cpp:856-871 | The walk over the entries as they were at the start meets only live ones and ends in the state machine's result |
| LfpApi.LfpApi.RemoveAllContactEntriesForTransport | core/lfp_api.cpp:833-854 | The walk over the addresses as they were at the start meets only live entries and ends in the state machine's result |
| LfpApi.LfpApi.DeleteEmptyGroups | core/lfp_api.cpp:824-831 | The walk over a copy of the group list removes the empty user groups |
| LfpApi.LfpApi.NewEntry | core/lfp_api.cpp:408-414 | The entry made is filed, indexed in front of others of its address, and announced |
| LfpApi.LfpApi.DeleteEntry | core/lfp_api.cpp:416-429 | The entry is taken out of its list and both indexes only |
| LfpApi.LfpApi.Handle | core/lfp_api.cpp:955-2173 | Whatever the event, objects that stand for a sound roster end up standing for the state machine's next one, which is sound |
| MucRuns.SameOccupants | core/lfp_api.cpp:480-534 | In every reachable state at most one chat has a given account and room; the occupants in the chats' lists, in the map by identifier and in the map by full address are the same, each once, in the chat of its account and room and under its present address; the own occupant is null or a participant |
| MucRuns.NickChangeKeepsOccupant | core/lfp_api.cpp:2877-2957 | In every state: a change of nickname (section 7.6 of XEP-0045) to another one keeps the same occupant under the new one; it keeps place and role and touches no one else if and only if the nickname really changes and no other occupant has the old address; otherwise an occupant filed under that address is deleted, another one if the nickname changes |
| MucRuns.StepDistinct | core/lfp_api.cpp:2771-2966 | From a state where no two occupants share account and address, an event leads to one where two do if and only if it is a change to a nickname in use |
| MucExamples.SameNickGone | core/lfp_api.cpp:2877-2957 | A run in which a change of nickname to itself deletes the occupant |
| MucExamples.OtherGone | core/lfp_api.cpp:2877-2957 | A run in which one of two occupants of one address takes an unused nickname, and the other one is deleted |
| MucExamples.NickTaken | core/lfp_api.cpp:2877-2898 | A run in which a change to a nickname in use gives two occupants one address |
| MucEffects.UnavailableEffect | core/lfp_api.cpp:2855-2957 | Someone leaving, banned, kicked or removed is found if and only if the account has an occupant of that address; exactly that one leaves the map, the chat's list and the place of the own occupant, and how it left is announced |
| MucEffects.NickChangeEffect | core/lfp_api.cpp:2877-2957 | A change of nickname is announced, the chat's own nickname follows if it was that one, and nobody is touched if nobody has the address |
| MucEffects.EnterEffect | core/lfp_api.cpp:2785-2822 | The first available presence of an address puts one new occupant, as the presence says, last in the list; it is the own one if it has the own nickname and that one is unknown |
| MucEffects.RefreshEffect | core/lfp_api.cpp:2785-2853 | Later ones give just that occupant the role, affiliation, status and text of the presence, and announce what differs |
| MucEffects.OtherPresence | core/lfp_api.cpp:2771-2784 | An error is announced for the chat of the room, and a presence for no chat does nothing |
| MucEffects.JoinEffect | core/lfp_api.cpp:3209-3234 | A chat is made if and only if there is none for the room, its address is valid and the request accepted, last in the list and not joined |
| MucEffects.JoinedEffect | core/lfp_api.cpp:2747-2760 | The chat of the room, or a new one under the reported nickname, is marked joined and announced |
| MucEffects.EndEffect | core/lfp_api.cpp:3299-3306 | However a chat ends, it goes with exactly its participants, and that is announced |
| MucEffects.RetryEffect | core/lfp_api.cpp:3236-3250 | Joining again under another nickname changes just that of the chat |
| MucRuns.StepInv | core/lfp_api.cpp:2632-2966 | Every event keeps the two indexes, the participant lists and the uniqueness of chats |
| MucRuns.PresenceInv | core/lfp_api.cpp:2771-2966 | A presence of any kind keeps them |
| MucInvariant.NewRoomInv | core/lfp_api.cpp:2632-2669 | A chat added for a room that had none keeps them |
| MucInvariant.DeleteRoomInv | core/lfp_api.cpp:2671-2693 | Deleting a chat with its occupants keeps them, for all other chats and occupants |
| MucInvariant.DropInv | core/lfp_api.cpp:2944-2957 | Deleting one occupant keeps them, and clears the own occupant if it was that one |
| GroupChats.GroupChats.FindContact | core/lfp_api.cpp:497-514 | Finds any of the account's occupants under the address, or nothing if and only if there is none; the empty set it may leave behind does not show |
| GroupChats.GroupChats.Register | core/lfp_api.cpp:480-484 | Files the occupant in both maps |
| GroupChats.GroupChats.Unregister | core/lfp_api.cpp:486-490 | Takes the occupant out of both maps |
| GroupChats.GroupChats.AddNewGroupChat | core/lfp_api.cpp:2632-2669 | Appends a new chat, not joined, without occupants and without an own one |
| GroupChats.GroupChats.CleanupAndDelete | core/lfp_api.cpp:2671-2693 | The objects follow the state machine through the loop over the participants |
| GroupChats.GroupChats.ClientGroupChatPresence | core/lfp_api.cpp:2771-2966 | The objects follow the state machine for every presence and whatever occupants the two look-ups find |
| GroupChats.GroupChats.ChangeNickname | core/lfp_api.cpp:2877-2898 | The occupant is filed anew under the new full address, the object staying the same |
| GroupChats.GroupChats.ClientGroupChatJoined | core/lfp_api.cpp:2747-2760 | The chat is found or made, and marked joined |
| GroupChats.GroupChats.ClientGroupChatLeft | core/lfp_api.cpp:2762-2769 | The chat and its occupants go |
| GroupChats.GroupChats.GroupChatJoin | core/lfp_api.cpp:3209-3234 | A chat is made only for a valid address of a room that has none, and its identifier returned |
| GroupChats.GroupChats.GroupChatRetryJoin | core/lfp_api.cpp:3236-3250 | Only the own nickname of that chat may change |
| GroupChats.GroupChats.GroupChatEnd | core/lfp_api.cpp:3299-3306 | The chat and its occupants go |
| WireFormat.ArgumentsRoundTrip | core/lfp_call.cpp:452-471 | Decoding an encoded argument list gives back the names and all nested values, whichever width the writer's long has, if and only if no value of an unknown kind is an argument with a name or stands under a key of a map; for plain Latin-1 names and keys and a whole shorter than 2 to the 31 |
| WireFormat.ObjectRoundTrip | core/lfp_call.cpp:152-379 | Decoding an encoded object gives it back, with its type, name, value and children |
| WireFormat.VariantRoundTrip | core/lfp_call.cpp:393-450 | A value turned into an object and back is the same with its name, lists and maps included, if and only if nothing of an unknown kind stands under a name |
| WireFormat.ValueBytes | core/lfp_call.cpp:152-256 | Every known value lies on the wire as the length of the rest, the name of its kind, a zero, its own name, a zero, and its content: one byte, an integer in 2 bytes, a long or 8, a text in UTF-8, the bytes, or the number of elements and each of them |
| WireFormat.ChildDelimited | core/lfp_call.cpp:182-183 | In a list's or map's content each child's length field delimits exactly that child, the last one ending with the content |
| WireFormat.LengthField | core/lfp_call.cpp:226-248 | The length field counts exactly the bytes after it |
| WireFormat.Parted | core/lfp_call.cpp:278-288 | Type, name and content are found again where the two zero bytes are |
| WireFormat.IntBack | core/lfp_call.cpp:189-213 | A 64-bit integer written in 2, 4 or 8 bytes reads back with its sign |
| WireBytes.SignedBytes | core/lfp_call.cpp:341-357 | Bytes enough for a number give it back in two's complement |
| WireFormat.UnknownLost | core/lfp_call.cpp:440-448 | Wherever it stands in a list of arguments, one of a kind the bridge does not know comes back without value and without its name |
| Wire.ToArray | core/lfp_call.cpp:152-256 | On hosts of either byte order the loops produce the same bytes, depending only on the width of long |
| Wire.FromArray | core/lfp_call.cpp:258-379 | On hosts of either byte order the cursor loops read exactly what is defined to be read |
| Wire.PutLong | core/lfp_call.cpp:189-213 | The bytes picked from memory are the low ones, most significant first, whatever the host's byte order |
| Wire.GetLong | core/lfp_call.cpp:336-357 | The number put together from 2, 4 or 8 bytes is the signed one, whatever the host's byte order |
| Wire.VariantAsObject | core/lfp_call.cpp:415-450 | The recursive loop builds the object of the value |
| Wire.ObjectAsVariant | core/lfp_call.cpp:393-413 | The recursive loop builds the value of the object |
| Wire.ArgumentsToArray | core/lfp_call.cpp:452-461 | The list of arguments is encoded as one sequence |
| Wire.ArgumentsFromArray | core/lfp_call.cpp:463-471 | The arguments read are those encoded |
| Wire.Relay | core/lfp_call.cpp:152-471 | Arguments written on one host and read on another, of any byte orders, are the same, if and only if nothing of an unknown kind has a name among them |
| CallQueue.EachCallOnceInOrder | core/main.cpp:126-142 | Under every interleaving the calls run are, once each, those whose threads got the lock first and in that order; the rest is in hand, in the list or held under the lock; and while the list is not empty a wake-up is queued, about to be posted or being worked off |
| CallQueue.RunsDrain | core/main.cpp:126-142 | Without new calls every run is no longer than the work at its start, and where it can go no further every call let in has been run |
| CallQueue.QuietMeansDone | core/main.cpp:236-260 | A state in which no thread can go on has run every call and waits for no lock: there is no deadlock and no forgotten call |
| CallQueue.StepInv | core/main.cpp:126-260 | Every step of every thread keeps mutual exclusion, the order of calls and the wake-up |
| CallQueue.StepShortens | core/main.cpp:126-142 | Every step but a new call brings the end nearer |
| CapsProperties.MapsAgree | core/psi-core/src/capsmanager.cpp:86-157 | Whatever updates, disablings and early, late or failed replies came before: an address is listed under a simple specification with a node if and only if the one it advertises contains it |
| CapsProperties.ChangesAreReported | core/psi-core/src/capsmanager.cpp:86-251 | An event changes someone's features without reporting it if and only if it is an advertisement without node or version that takes back one that meant something |
| CapsProperties.SilentDrop | core/psi-core/src/capsmanager.cpp:123-128 | A run in which an incomplete advertisement takes features back and nobody is told |
| CapsProperties.RepliesFiledRight | core/psi-core/src/capsmanager.cpp:113-211 | Over every run: the reply to a question about an advertisement is registered under the version asked about if and only if, when it arrives, the last advertisement of the address still has that node and version, and neither node nor extension contains the separator; with a separator inside, the reply names other parts, whatever number of them |
| CapsProperties.FiledRight | core/psi-core/src/capsmanager.cpp:190-211 | In every state, likewise: filed under node, version and extension if and only if they can be told apart and are what is advertised then |
| CapsProperties.SpecAdvertised | core/psi-core/src/capsmanager.cpp:86-157 | What is kept for an address is what it last advertised, nothing if that was incomplete or taken back |
| CapsProperties.LateReplyMisfiled | core/psi-core/src/capsmanager.cpp:190-211 | A run in which a reply about an older version is registered under the newer one |
| CapsProperties.RegistryWriteOnce | core/psi-core/src/capsregistry.cpp:228-238 | What is registered keeps its meaning over every run |
| CapsProperties.UpdateAgree | core/psi-core/src/capsmanager.cpp:86-137 | An update of any kind keeps both maps in agreement |
| CapsProperties.QuestionParts | core/psi-core/src/capsmanager.cpp:190-195 | The parts of a question's node are those of node and extension, two at least unless one of them is made of separators only |
| CapsMeaning.FlattenExact | core/psi-core/src/capsspec.cpp:91-100 | A simple specification belongs to an advertisement if and only if node and version agree and its extension is the version or a word of the advertised extensions, between blanks or ends of the text |
| CapsMeaning.ListedAsAdvertised | core/psi-core/src/capsmanager.cpp:86-157 | Over every run an address is listed under a specification with a node if and only if its last complete advertisement, not taken back since, stands for it in that sense |
| CapsMeaning.FeaturesAsAdvertised | core/psi-core/src/capsmanager.cpp:239-251 | Over every run an address has exactly the features that registered specifications mean which that advertisement stands for |
| CapsMeaning.AskedExactly | core/psi-core/src/capsmanager.cpp:110-120 | An event asks exactly about the specifications of a new complete advertisement that have no meaning yet and list its address alone, while look-ups are enabled |
| CapsMeaning.ReportedExactly | core/psi-core/src/capsmanager.cpp:86-211 | An address is reported exactly when it newly advertises something complete, is disabled, or something it is listed under gets its meaning |
| CapsMeaning.RepeatedAdvertisement | core/psi-core/src/capsmanager.cpp:131-136 | The same advertisement again lists the address once more under exactly its specifications and does nothing else |
| CapsKnowledge.AdvertisedKnownOrAsked | core/psi-core/src/capsmanager.cpp:86-251 | In every reachable state, for every specification somebody is listed under: there was an event at which to ask for its meaning, since which it has been listed; the meaning is registered or the reply under way, unless look-ups were disabled then or a reply came that failed or was filed elsewhere, nothing else has told it, and it was not known before; and in that case neither is so |
| CapsKnowledge.ChanceAsks | core/psi-core/src/capsmanager.cpp:110-120 | When an update makes an address the only one listed under a specification, the question is asked if and only if look-ups are enabled and the meaning is not registered |
| CapsKnowledge.InfoSince | core/psi-core/src/capsmanager.cpp:190-211 | A meaning is registered if and only if it was before, or since then a successful reply came from an address advertising just that node and version, or someone else registered it |
| CapsProperties.SplitTwo | core/psi-core/src/capsmanager.cpp:190-196 | The node asked about splits back into node and extension when neither contains the separator |
| CapsManager.CapsRegistry.RegisterCaps | core/psi-core/src/capsregistry.cpp:228-238 | The first registration is kept, and only it reports |
| CapsManager.FlattenSpec | core/psi-core/src/capsspec.cpp:91-100 | The loop lists the version's own specification and one for each extension |
| CapsManager.CapsManager.UpdateCaps | core/psi-core/src/capsmanager.cpp:86-137 | The loops change both maps as the state machine says |
| CapsManager.CapsManager.DisableCaps | core/psi-core/src/capsmanager.cpp:144-157 | The address is forgotten everywhere and reported |
| CapsManager.CapsManager.DiscoFinished | core/psi-core/src/capsmanager.cpp:181-211 | A reply fills the registry only if it fits the node advertised now, and reports everyone listed |
| CapsManager.CapsManager.Features | core/psi-core/src/capsmanager.cpp:239-251 | Collects the features of all simple specifications |
| MetacontactsProperties.UnsavedChangesAreDue | core/sapo/metacontacts_directory.cpp:280-294 | Between events: if any tag or order differs from what was last sent, received or cleared, a save is due and its timer runs; and the timer runs only then |
| MetacontactsSaves.StrandedIfFailed | core/sapo/metacontacts_directory.cpp:224-294 | Over every run, in whatever order saves are answered: the directory differs from what was last confirmed with nothing due or under way, if and only if the last save failed and carried something else than was confirmed, no save is unanswered, and nothing was edited since it was sent |
| MetacontactsSaves.DueIfEdited | core/sapo/metacontacts_directory.cpp:280-294 | A save is due, and its timer runs, if and only if something was edited since the directory was last sent or taken over |
| MetacontactsSaves.FailedSaveStrands | core/sapo/metacontacts_directory.cpp:254-266 | A run in which a failed save leaves a change behind |
| MetacontactsProperties.TimerSendsAll | core/sapo/metacontacts_directory.cpp:161-164 | When the timer fires, exactly the directory's records are sent, each once |
| MetacontactsProperties.StepMirrors | core/sapo/metacontacts_directory.cpp:326-416 | A listener's copy stays exact over an event if and only if the event is not the setting of a negative order other than the present one, nor the clearing of a directory that says anything |
| MetacontactsProperties.SignalsRebuildDirectory | core/sapo/metacontacts_directory.cpp:171-416 | So over runs without those, the signals rebuild every tag and order |
| MetacontactsProperties.DownloadTakesOver | core/sapo/metacontacts_directory.cpp:171-222 | Downloading any list leaves exactly its tags, the last record about an address deciding, and the listed orders |
| MetacontactsProperties.SaveThenDownload | core/sapo/metacontacts_directory.cpp:224-252 | The list sent, taken over by a fresh directory, restores every tag, and every order of an address with a tag entry |
| MetacontactsHistory.TagsAsSaid | core/sapo/metacontacts_directory.cpp:171-416 | Over every run anyone asking is told the tag last said of an address, by an edit, a list taken over, which says none of addresses not in it, or clearing |
| MetacontactsHistory.OrderNext | core/sapo/metacontacts_directory.cpp:171-416 | An order set is told if it is positive or the present one, and as none otherwise; a list taken over says its orders and none for the other addresses in the directory of tags |
| MetacontactsHistory.EditsAnnounced | core/sapo/metacontacts_directory.cpp:326-416 | Exactly the edits that change something are announced, each once, and nothing but saving sends anything |
| MetacontactsHistory.KeysAfterEdit | core/sapo/metacontacts_directory.cpp:326-416 | Which addresses the two maps list after an edit, defaults left by look-ups included |
| MetacontactsHistory.DownloadedKeys | core/sapo/metacontacts_directory.cpp:171-222 | After a download exactly the addresses of the list have an entry in the directory of tags |
| MetacontactsHistory.DirtyNext | core/sapo/metacontacts_directory.cpp:224-294 | An address counts as edited from an edit that changes something until a save succeeds, a list is taken over or the directory is cleared |
| MetacontactsEdits.EditsDuringDownload | core/sapo/metacontacts_directory.cpp:178-215 | For any number of edits, anywhere in the two loops of a download: the tags afterwards are exactly the list's if and only if every edit that is the last thing said of its address says what the list does; the others are kept, and in no case is a save due |
| MetacontactsEdits.NoEdits | core/sapo/metacontacts_directory.cpp:178-215 | Without edits the two loops are those of a download |
| MetacontactsProperties.EditWhileReceiving | core/sapo/metacontacts_directory.cpp:178-215 | After an edit made by a listener once any number of records were taken over, the tags are the list's if and only if the list says nothing of the address, or says it later, or says the same; otherwise the edit is kept, and in no case is a save due |
| MetacontactsProperties.EditWhileDiscarding | core/sapo/metacontacts_directory.cpp:201-215 | After an edit made while addresses are discarded, the tags are the list's if and only if the address is still to be discarded or the tag is the list's; otherwise the edit is kept, and in no case is a save due |
| MetacontactsDirectory.MetacontactsDirectory.SetTagForJID | core/sapo/metacontacts_directory.cpp:326-348 | The maps, flag, timer, dirty set and signals change as the state machine says, default entries left by look-ups included |
| MetacontactsDirectory.MetacontactsDirectory.SetOrderForJID | core/sapo/metacontacts_directory.cpp:355-377 | Likewise for an order |
| MetacontactsDirectory.MetacontactsDirectory.SetTagAndOrderForJID | core/sapo/metacontacts_directory.cpp:379-416 | Likewise for both at once, with one signal |
| MetacontactsDirectory.MetacontactsDirectory.FinishedUpdateFromServer | core/sapo/metacontacts_directory.cpp:171-222 | The two loops take over and discard as the state machine says |
| MetacontactsDirectory.MetacontactsDirectory.SaveToServer | core/sapo/metacontacts_directory.cpp:224-252 | One record for each key of the tag map is sent, and nothing is due any more |
| MetacontactsDirectory.MetacontactsDirectory.SaveTimerTimedOut | core/sapo/metacontacts_directory.cpp:161-164 | The single-shot timer is off, and saves if a save is due |
| Decimal.NumberBack | core/sapo/metacontacts_directory.cpp:195-197 | A 32-bit integer written in decimal reads back |
| JidUtil.DecodeEncode | core/psi-helpers/jidutil.cpp:25-81 | Decoding an encoded ASCII address gives it back if and only if it is unambiguous: without '@' it has no "_at_" from position 3 on; with one, there is just one, three characters come before it, and behind it no "_at_" could be read even with the underscore that ends its spelling |
| JidUtil.CommonAddress | core/psi-helpers/jidutil.cpp:50-81 | In particular with one '@', three characters before it and no underscore behind it |
| JidUtil.ShortName | core/psi-helpers/jidutil.cpp:73 | A concrete address whose '@' is not restored |
| JidUtil.EncodedForm | core/psi-helpers/jidutil.cpp:25-48 | Each character is encoded for itself: letters, digits and dots as they are, '@' as "_at_", the rest as '%' and two capital hexadecimal digits |
| JidUtil.EncodeInjective | core/psi-helpers/jidutil.cpp:25-48 | No two ASCII addresses share an encoding |
| JidUtil.LowerEncodeInjective | core/psi-helpers/jidutil.cpp:25-48 | No two lower-case ASCII addresses share an encoding in lower case |
| JidUtil.Encode | core/psi-helpers/jidutil.cpp:25-48 | The loop computes the character-wise encoding |
| JidUtil.Decode | core/psi-helpers/jidutil.cpp:50-81 | The loops undo escapes and restore the last "_at_" from position 3 on |
| VCardFactory.CardFound | core/psi-helpers/vcardfactory.cpp:67-142 | Over every run of arrivals, settings and questions: the card found is the last one arrived or set, if and only if at most five other addresses were put in front since or the file holds that card; otherwise it is the file's |
| VCardFactory.AlwaysLastCard | core/psi-helpers/vcardfactory.cpp:67-130 | If no card is set by hand: whatever was fetched and asked for before, the card found is the last that arrived for the address, else the one its file held at the start |
| VCardFactory.StepShape | core/psi-helpers/vcardfactory.cpp:67-142 | Every event keeps the same addresses in list and map, each once and at most six |
| VCardFactory.StepInv | core/psi-helpers/vcardfactory.cpp:67-142 | Every cached card stays the one on disk, if and only if no other card is set |
| VCardFactory.SetCardForgotten | core/psi-helpers/vcardfactory.cpp:136-142 | A run: a card that is set is lost once six other cards have arrived, and the old file answers |
| VCardFactory.FilesCoincide | core/psi-helpers/vcardfactory.cpp:94 | Two ASCII addresses share a file if and only if they differ in case only |
| VCardFactory.VCardFactory.CheckLimit | core/psi-helpers/vcardfactory.cpp:67-80 | The card comes first; a full list loses its last address and card |
| VCardFactory.VCardFactory.TaskFinished | core/psi-helpers/vcardfactory.cpp:83-104 | A card that arrived is cached and filed |
| VCardFactory.VCardFactory.VCard | core/psi-helpers/vcardfactory.cpp:110-130 | Answers from memory or disk, caching what came from disk |
| VCardFactory.VCardFactory.SetVCard | core/psi-helpers/vcardfactory.cpp:136-142 | The card comes first in memory, and no file is written |
| Avatars.ShownIsCurrent | core/psi-helpers/avatars.cpp:157-331 | In whatever order announcements and replies come, the picture shown is the one filed under the current hash, requests under way are for different hashes not yet cached, and a reply not waited for changes only cache and requests |
| Avatars.LastAnnouncementFollowed | core/psi-helpers/avatars.cpp:157-331 | Over every run: what was announced last is waited for, and shown if its picture is there, if and only if that announcement was no return to the current hash while another was waited for, whatever came before; otherwise the next picture for the hash waited for is shown instead |
| Avatars.LastAnnouncementRequested | core/psi-helpers/avatars.cpp:157-331 | Over every run: while the picture announced last is not there, a request for it is under way if and only if it could be asked for when it was announced, or had been, and no reply to that request has come since |
| Avatars.CachedIsLastPicture | core/psi-helpers/avatars.cpp:157-331 | Over every run what is cached for a hash is the picture that came for it last, or the one there at the start, and what is shown is that of the current hash |
| Avatars.EmptyReplyEnds | core/psi-helpers/avatars.cpp:313-331 | A run in which an empty reply leaves nothing on its way |
| Avatars.TargetSince | core/psi-helpers/avatars.cpp:157-187 | What is waited for is the hash announced last or, after such a return, the one waited for before it; replies do not change it |
| Avatars.StaleReplyShown | core/psi-helpers/avatars.cpp:157-331 | A run in which a late reply replaces the picture announced last |
| Avatars.CachedAvatar.UpdateHash | core/psi-helpers/avatars.cpp:157-187 | The fields change as the state machine says |
| Avatars.CachedAvatar.RequestAvatar | core/psi-helpers/avatars.cpp:301-311 | A request is made unless one for the hash is under way |
| Avatars.CachedAvatar.Received | core/psi-helpers/avatars.cpp:313-331 | The reply is cached, and shown only if it is the one waited for |
| FileTransfer.DeltasAndEndings | core/lfp_api.cpp:2576-2629 | However progress, ticks, errors and cancelling interleave: the deltas notified add up to the last total, the transfer is called finished only at the size of the file, and there is at most one ending, after which nothing is notified |
| FileTransfer.WholeFileFinishes | core/lfp_api.cpp:2594-2614 | Over every run: once the last bytes have come, or a transfer without any is looked at, and unless it is cancelled or an error comes, the transfer is called finished if and only if the timer has run since |
| FileTransfer.TotalsNotified | core/psi-helpers/filetransferhandler.cpp:290-382 | Over every run the bytes counted are those there were when the transfer was last connected and all that came since, and the last total notified is how many there were when some came last before the timer ran |
| FileTransfer.EndingsExact | core/psi-helpers/filetransferhandler.cpp:290-420 | Over every run an error is notified exactly if something failed, the end exactly if the timer ran when all was reported, and the transfer goes on exactly if neither happened nor a cancelling |
| FileTransfer.StreamAndTimer | core/psi-helpers/filetransferhandler.cpp:290-420 | Over every run the stream is there as long as nothing closed it, a look at an empty transfer is due from its connection until it happens, and the timer runs once bytes were counted and while the transfer goes on |
| FileTransfer.FileTransferInfo.FtConnected | core/psi-helpers/filetransferhandler.cpp:290-349 | Counting starts at the offset; a file that cannot be opened is an error |
| FileTransfer.FileTransferInfo.FtReadyRead | core/psi-helpers/filetransferhandler.cpp:351-366 | Bytes received are counted and reported |
| FileTransfer.FileTransferInfo.FtBytesWritten | core/psi-helpers/filetransferhandler.cpp:368-382 | Bytes sent are counted and reported |
| FileTransfer.FileTransferInfo.TimerUpdateProgress | core/lfp_api.cpp:2594-2614 | The bytes since the last notification are notified, and the end if it is reached |
| ProgressSteps.CalcShift | core/psi-helpers/filetransferhandler.cpp:9-19 | The loop finds the excess of the leading bit over 16 bits, 0 for sizes below 2 to the 16 |
| ProgressSteps.ShiftUnique | core/psi-helpers/filetransferhandler.cpp:9-19 | There is only one such shift for a size |
| ProgressSteps.ProgressRight | core/psi-helpers/filetransferhandler.cpp:21-41 | At most 65536 steps, from 0, never going back, and the last is reached with the last byte and not before |
| ProgressSteps.StepsFill | core/psi-helpers/filetransferhandler.cpp:21-36 | Size and complement together are exactly all the steps, the complement less than one |
| ProgressSteps.BlockFits | core/psi-helpers/filetransferhandler.cpp:21-29 | The block size fits a 32-bit integer if and only if the size is below 2 to the 46 |
| TextCodecs.PassesEscape | core/psi-core/src/common.cpp:165-171 | The three replacement passes equal one character-wise escape |
| TextCodecs.EscapedForm | core/psi-core/src/common.cpp:165-171 | Each character is escaped for itself: backslash, bar and line end as a backslash and a letter |
| TextCodecs.LogRoundTrip | core/psi-core/src/common.cpp:165-196 | The escaped text has no separator and no line end, and reads back as it was |
| TextCodecs.LogEncode | core/psi-core/src/common.cpp:165-171 | The passes compute the escape |
| TextCodecs.LogDecode | core/psi-core/src/common.cpp:173-196 | The loop undoes escapes and drops unknown ones |
| TextCodecs.PasswordRoundTrip | core/psi-core/src/common.cpp:106-147 | Every password of 16-bit characters comes back under every key, and has four characters for each when the key is not empty |
| TextCodecs.EncodedDigits | core/psi-core/src/common.cpp:106-123 | The characters of a password stand there one by one, as the four small hexadecimal digits of what each makes with the character of the key at its place modulo the key's length |
| TextCodecs.EncodePassword | core/psi-core/src/common.cpp:106-123 | The loop uses the key in turn |
| TextCodecs.DecodePassword | core/psi-core/src/common.cpp:125-147 | The loop reads four characters at a time under the key in turn |
| TextCodecs.ClippedFits | core/psi-core/src/common.cpp:70-104 | At most height lines of at most width characters are left |
| TextCodecs.ClippedIdentity | core/psi-core/src/common.cpp:70-104 | A text is left as it is if and only if it fits |
| TextCodecs.ClippedLines | core/psi-core/src/common.cpp:70-104 | Each of the first lines is kept, a longer one as its first characters and three dots up to the width, and ends as it did; there are no other lines |
| TextCodecs.ClipStatus | core/psi-core/src/common.cpp:70-104 | The loops clip line by line |

## Left out

- Positions (`pos`) in group and contact properties: notifications of the model carry kind, name and
  alternative name only; order in the user interface is not claimed.
- Chats between two people: removing an entry does not update them, so nothing is claimed of them. Only
  the entry made for a chat from a stranger is modelled.
- `rosterContactSetMetacontactOrder` beyond the tag it mints: the rest sets orders in the directories.
- Presence, resources, avatars and vCards of entries as properties in the bridge: plain forwarding.
- Which entries' directories report a tag back while a contact is being tagged is an input of the event.
- Uniqueness of user group names: a rename may take a name in use.
- LfpApi.LfpApi.MetacontactInfoForJIDDidChange: takes reports nested in it as announcements, which
  `RosterTags.NestedReport` shows they are.
- MucModel: room addresses and nicknames are a pair instead of one string; configuration forms, topics
  and messages of rooms are forwarding.
- WireFormat.Decode: says nothing of bytes on which the reader's behaviour is undefined; the conversion to
  UTF-8 is a pair of functions with the stated inverse.
- CallQueue: what a call does, and event loops started inside one.
- CapsManager: identities and client names, the registry's file, and registrations without a node.
- Decimal.ToInt: numbers with a plus sign or surrounded by blanks, which the library also reads.
- JidUtil.Unescaped: two characters after a percent sign that the library reads as a number with a sign or
  a blank; such escapes are never written.
- JidUtil.Encode: characters outside ASCII.
- VCardFactory: the conversion of cards to XML, failing files, and the account's own card.
- Avatars: image decoding and scaling, hashing of the received data, directories shared by several avatars.
- FileTransfer: contents of files, proxies, and the reading of blocks to send; an error code the handler
  does not know closes the stream without a notification, as in the code.
- TextCodecs.ClipStatus: widths below 3.
- Network, XML, TLS, Qt's meta-objects and the dialogs of the user interface.
