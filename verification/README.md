# Verified models of the driver's self-contained algorithms

These Dafny modules model parts of an 802.11 driver that are algorithms and protocols rather than
register access, and prove what the code relies on.  `dafny verify dfyconfig.toml` checks everything.

| module | what it is about |
|---|---|
| `CommandThread` | many callers, one queue, one consumer thread, and a wait with a timeout on the caller's stack, as a transition system over all interleavings |
| `Nat25Table` | the NAT2.5 address table: hash chains with back pointers refining a finite map, ageing and use counts |
| `PppoeRelay`, `SocketBuffer` | stamping and unstamping the PPPoE Relay-Session-Id tag: the theorems on values, and the in-place code that refines them |
| `DhcpFlag` | setting the broadcast flag of a DHCP request and adjusting the UDP checksum |
| `Tlv`, `ElementEdit`, `ElementParser`, `P2pAttributes` | lists of information elements and P2P attributes in a flat buffer: searching, printing, parsing, removing |
| `BssDescription`, `Beacon` | adding and removing beacon elements in order |
| `TrafficMap`, `Words` | the traffic indication map, its place in the beacon, and when octets put in there leave a list of elements |
| `StationAgeing` | the sweep over the associated stations, its time bounds, and the list with its count |
| `StationCaps` | counters, HT operation mode and ERP octet against the set of stations |
| `ScanTable` | the pool of scanned networks: partition, uniqueness, eviction, ageing |
| `Eeprom`, `PowerSequence` | the EEPROM bit shifter and the power-sequence interpreter against an arbitrary device |
| `Bytes`, `Memory` | octets, 16-bit numbers, and the block operations of the C library |

Code that works in place is a method on arrays or a class with the code's fields, proved against a
specification on values; the main results are lemmas about that specification or invariants every
method keeps.  Several predicates are folded: they have the form `forall k :: Look(k) ==> ...`, so that
their contents come into view only where a proof mentions `Look`.

## Where the code does not do what it is for

Each of these is stated exactly, by a condition that holds if and only if the code does what it is for or by
what it does in every case; an example stands beside a condition that does not name one itself.

- Stations: a sleeping HT station whose ADDBA candidate bit is still set when its time runs out in the
  middle of the probes gets a whole new period without a try being counted.  The bound 2 E + 8 holds
  exactly if the bit is clear at the sweeps that matter (`StationAgeing.SleepingIsRemovedIff`), and if it
  is never cleared the station is never removed (`StationAgeing.NeverRemoved`).
- P2P: the search compares four octets behind the header of a vendor element even if it is shorter, so
  that a short one can hide the P2P element behind it (`P2pAttributes.RemovesIff`,
  `P2pAttributes.ShadowedExample`).  The removal of elements by OUI has the same test and can take out an
  element of another vendor (`Tlv.SurvivingIsWithoutIff`, `ElementEdit.StumpGoes`).
- PPPoE: the length of the new tag is read without conversion, so that on a little-endian host no relay
  tag is ever added (`PppoeRelay.InsertFailsLittleEndian`).  A frame refused for want of room has already
  lost its old relay tag (`PppoeRelay.InsertStamps`).
- DHCP: the old flags are not taken off the checksum, which is right exactly if they were zero
  (`DhcpFlag.PatchKeepsSumIff`); a datagram without a checksum gets one (`DhcpFlag.NoneBecomesSome`).
- Beacon: an element is silently not added in front of all others, or behind an empty one
  (`Beacon.AddsIff`).
- Traffic indication map: associations 8 to 15 are missed when none of 1 to 7 has traffic
  (`TrafficMap.TimIsFaithfulIff`).  Without a TIM and without DS parameters the place for a new one can be
  in the middle of an element or beyond the end: `TrafficMap.UpdateBcnTim` says exactly when the list still
  takes it, and `TrafficMap.TimInsideElement` shows one that is no list any more.  With an empty TIM in
  front of the place every update puts in one more (`TrafficMap.LastTimWinsIff`, `TrafficMap.TimsPileUp`,
  `TrafficMap.EmptyTimExample`).
- Capabilities: the Barker bit is written only together with the protection bits
  (`StationCaps.BarkerRightIff`, `StationCaps.BarkerExample`); the flags for greenfield and 20 MHz are
  never taken back on a rejoin (`StationCaps.JoinDescribesIff`); with `ht_option` on the HT mode is never
  written (`StationCaps.UnwrittenModeIsRightIff`).
- Scan table: freeing the association of an ad-hoc master with one station counts one node twice
  (`ScanTable.MlmePriv.FreeAssocResources`); with 64-bit words the oldest entry is not found once the
  32-bit stamps have wrapped (`ScanTable.OldestIsLeast64Iff`), old entries look young again
  (`ScanTable.PassingIsAgeIff`), and a report without capabilities can enter another network than its own
  (`ScanTable.CopyIsSameIff`), which then has two entries (`ScanTable.TwinExample`).  The test on element
  lengths in `core/rtw_mlme.c:972-973` has no effect.
- Command queue: a command that is too large is neither queued nor freed, and success is reported
  (`CommandThread.LeakedIffOversized`, `CommandThread.OversizedReturns`); the shutdown path frees without
  completing (`CommandThread.DrainIsSafeIffSettled`, `CommandThread.DrainFaults`).
- Address table: beyond half the clock's range a dead entry looks alive (`Nat25Table.ExpiredIffAged`), and
  the transmit shortcut refreshes the entry of the sender's earlier IP address exactly if the sender has
  changed it since (`Nat25Table.Bridge.TakeShortcut`, `Nat25Table.ShortcutExample`).
- Power sequences share one polling budget (`PowerSequence.SucceedsIff`), and a bit reached on the last poll
  still fails (`PowerSequence.PollMeetsIff`, `PowerSequence.LastPollFails`).  `Eeprom.EepromRead` reads 256
  octets for none at an odd address.

## Model

| member | source | states |
|---|---|---|
| CommandThread.NoDanglingAccess | core/rtw_cmd.c:626-672 | In every interleaving of callers, their timeouts and the thread, no step touches a dead stack frame or a freed command, for runs whose shutdown drain throws away no command a caller still depends on |
| CommandThread.GentleStepIsSafe | core/rtw_cmd.c:1323-1336 | One step of the thread or of a waiting caller keeps memory safety: both sides use the pointer only under the mutex, and completion comes before freeing |
| CommandThread.CallerKeepsShape | core/rtw_cmd.c:1323-1336 | Every step of a caller, from the filter to the release of the mutex, keeps the per-call and thread invariants |
| CommandThread.ThreadKeepsShape | core/rtw_cmd.c:542-676 | Every step of the thread keeps the per-call and thread invariants |
| CommandThread.StepKeepsFifo | core/rtw_cmd.c:215-339 | Every step keeps insertion order, exactly-once and one semaphore unit per posted command in front of a blocking thread, also while shutting down |
| CommandThread.RunKeepsInv | core/rtw_cmd.c:516-708 | Over every run whose shutdown drain throws away no command a caller depends on all invariants hold |
| CommandThread.InsertedOnceInOrder | core/rtw_cmd.c:542-676 | What has been inserted is what was dispatched, then what was drained, then what is queued, without repetition; only a thread that shuts down drains |
| CommandThread.NoLostWakeup | core/rtw_cmd.c:424-458 | When the thread blocks with the semaphore at zero, every queued command belongs to a caller between its insert and its `up` |
| CommandThread.QueueIsServed | core/rtw_cmd.c:542-676 | In every run in which nobody stops the thread it dispatches the queue in order, the next command at least every thirteen of its own steps, whatever the callers do in between |
| CommandThread.DoneIffCompleted | core/rtw_cmd.c:626-640 | Over every run: the status of a call is written exactly if the call is completed or the thread is just about to complete it |
| CommandThread.CompletedIffNotCancelled | core/rtw_cmd.c:1323-1336 | Over every run: a waiting caller whose command was dispatched and freed is completed exactly if it did not clear the pointer itself, and then holds the result its own handler returned |
| CommandThread.TakenIsFreed | core/rtw_cmd.c:542-699 | Over every run: a command dispatched is freed or in the thread's hands; one drained is freed without its caller ever being completed |
| CommandThread.SemaphoreCounts | core/rtw_cmd.c:505-551 | Over every run the semaphore is what it was, with one more for every `up` of a caller or of the stop request and one less for every `down` |
| CommandThread.StopIsNotLost | core/rtw_cmd.c:505-514 | A stop requested in any run wakes the thread: it is never blocked with that request pending |
| CommandThread.StopEndsService | core/rtw_cmd.c:542-561 | After a stop request, once the thread waits for its semaphore, has just been woken or drains, no run dispatches a command any more |
| CommandThread.StoppedServesOneMore | core/rtw_cmd.c:551-580 | While the driver stays stopped or the device removed, at most the command being taken is still dispatched |
| CommandThread.StaysRunning | core/rtw_cmd.c:542-676 | A thread that nobody stops or interrupts never leaves its loop |
| CommandThread.DrainEmpties | core/rtw_cmd.c:680-699 | The drain of a thread left alone throws away the whole queue in order and ends with the thread |
| CommandThread.NeverStuck | core/rtw_cmd.c:542-676 | While a command whose `up` is done is queued the thread always has a step to take, or a caller holding the mutex has one towards releasing it |
| CommandThread.DrainIsSafeIffSettled | core/rtw_cmd.c:680-699 | Draining the head leads to no fault in any continuation exactly when its caller no longer depends on it |
| CommandThread.DrainFaults | core/rtw_cmd.c:680-699 | From the initial state a run in which the thread is interrupted, the drain frees a queued command, and the caller gives up waiting and writes into it |
| CommandThread.OversizedIsLeaked | core/rtw_cmd.c:215-277 | A command too large for the queue, whose insertion reports success, is never dispatched, drained or freed |
| CommandThread.LeakedIffOversized | core/rtw_cmd.c:215-277 | Over every run, of the commands whose callers were told they are queued exactly the oversized ones are leaked, and all others are dispatched, drained or still queued |
| CommandThread.OversizedReturns | core/rtw_cmd.c:215-277 | From the initial state a run after which such a command is on no queue and its caller has returned |
| Nat25Table.Bridge.HashLink | core/rtw_br_ext.c:378-392 | Linking in front keeps the chain and every back pointer, and changes no other bucket |
| Nat25Table.Bridge.HashUnlink | core/rtw_br_ext.c:395-408 | Unlinking through the back pointer alone takes exactly that entry out of the chain |
| Nat25Table.Bridge.FindEntry | core/rtw_br_ext.c:1557-1580 | The chain walk finds a key exactly when the map holds it |
| Nat25Table.Bridge.LookupAndReplace | core/rtw_br_ext.c:411-482 | Found exactly when in the map; the destination is rewritten and a use counted exactly for an unexpired entry |
| Nat25Table.Bridge.Insert | core/rtw_br_ext.c:485-520 | The map gets the address with the new MAC and stamp, keeping the use count of an entry that was there and starting a new one with one use |
| Nat25Table.Bridge.Drop | core/rtw_br_ext.c:708-714 | Freeing an entry takes its key out of the map and clears the shortcut exactly if it pointed there |
| Nat25Table.Bridge.ExpireOne | core/rtw_br_ext.c:655-717 | One entry of the sweep: expired with one use, gone; expired with more, one use less; otherwise unchanged |
| Nat25Table.Bridge.Expire | core/rtw_br_ext.c:639-724 | A whole sweep of the chains is the sweep of the map, and never leaves the shortcut dangling |
| Nat25Table.Bridge.Cleanup | core/rtw_br_ext.c:610-636 | Afterwards the table is empty and the shortcut is cleared |
| Nat25Table.Bridge.TakeShortcut | core/rtw_xmit.c:3413-3434 | A new sender address is looked up and the shortcut set to its entry or to nothing; the same address again refreshes the entry found before, or is forgotten if there is none; the entry refreshed is that of the frame's IP address exactly if the sender is new or has kept it; only a stamp changes in the table |
| Nat25Table.HashChangesIff | core/rtw_br_ext.c:326-375 | Changing one octet behind the kind of a key moves it to another bucket exactly if the octet is one its kind hashes and its low four bits change |
| Nat25Table.ShortcutExample | core/rtw_xmit.c:3413-3434 | A sender with two IP addresses in the table: the frame from the second refreshes the entry of the first |
| Nat25Table.ExpiredIffAged | core/rtw_br_ext.c:144-161 | On the wrapping clock, for every age short of its range beyond the ageing time, the comparison is right exactly up to half the range beyond it |
| Nat25Table.SurvivesFewerSweepsThanUses | core/rtw_br_ext.c:639-724 | An untouched entry survives a series of sweeps exactly as long as fewer of them found it expired than it has uses, and has lost that many |
| Nat25Table.LookupBuysOneSweep | core/rtw_br_ext.c:411-482 | Each lookup that finds the entry unexpired buys it one more sweep |
| Nat25Table.LookupByAge | core/rtw_br_ext.c:411-482 | By age, up to half the clock's range beyond the limit: an entry younger than the ageing time gives the frame its MAC and gains a use with nothing else changed; otherwise table and frame stay |
| PppoeRelay.InsertStamps | core/rtw_br_ext.c:1129-1168 | INSERT on any well-formed tag list: refused exactly when the old relay value is longer than 28 octets or there is no room, the frame unchanged but for an old relay tag that is already taken out when room is missing; else the client's address and the old value stand in one relay tag in front of all other tags, with the length adjusted (RFC 2516, Appendix A) |
| PppoeRelay.LookupUnstamps | core/rtw_br_ext.c:1200-1243 | LOOKUP on any reply whose first relay tag is stamped: sent to the stamped address, the old value restored or the tag dropped if it was empty, everything else unchanged |
| PppoeRelay.LookupRefuses | core/rtw_br_ext.c:1200-1243 | A reply without a relay tag, or whose first one carries no stamp, is refused and unchanged |
| PppoeRelay.RelayRoundTrip | core/rtw_br_ext.c:1129-1168 | Whatever reply carries the tag INSERT made goes to the client that sent the request, with its relay value back |
| PppoeRelay.EchoRoundTrip | core/rtw_br_ext.c:1200-1243 | A reply with the request's payload comes back with the restored relay tag in front of the client's other tags, in order |
| PppoeRelay.EchoIsExactIff | core/rtw_br_ext.c:1129-1168 | That payload is the original one exactly when there was no relay tag, or a non-empty one in front |
| PppoeRelay.InsertFailsLittleEndian | core/rtw_br_ext.c:104-121 | With the length field read in little-endian order INSERT never succeeds |
| PppoeRelay.FindFirst | core/rtw_br_ext.c:86-101 | The search returns the first relay tag of a well-formed list |
| PppoeRelay.CutMiddle | core/rtw_br_ext.c:123-142 | Cutting a stretch of the payload leaves what stood around it, and the length field follows |
| SocketBuffer.SkBuff.FindTag | core/rtw_br_ext.c:86-101 | The cursor loop computes the search |
| SocketBuffer.SkBuff.PullAndMerge | core/rtw_br_ext.c:123-142 | Refused without change when the stretch is not inside the data, otherwise the octets behind it move down |
| SocketBuffer.SkBuff.AddTag | core/rtw_br_ext.c:104-121 | The in-place form of adding a tag: verdict and frame are those of the value-level step |
| SocketBuffer.SkBuff.InsertRelay | core/rtw_br_ext.c:1129-1168 | The in-place discovery branch of INSERT refines the value-level one |
| SocketBuffer.SkBuff.LookupRelay | core/rtw_br_ext.c:1200-1243 | The in-place discovery branch of LOOKUP refines the value-level one |
| Tlv.HitIsExactIff | core/rtw_ieee80211.c:275-278 | The test on identifier and leading octets is right in every surrounding exactly for elements that are not too short for the OUI while agreeing with it |
| Tlv.ScanNearest | core/rtw_ieee80211.c:1580-1604 | On any complete list the search passes over elements whose octets and those behind do not form the prefix, and stops at the first where they do |
| Tlv.EncodeAppend | core/rtw_ieee80211.c:143-162 | Printing lists one behind the other prints their concatenation |
| Tlv.SurvivingIsWithoutIff | core/rtw_ieee80211.c:307-341 | Exactly the elements that carry the OUI go if and only if no element too short for it is completed by what follows, the octets left behind by earlier removals included |
| Tlv.SurvivingIsWithoutInside | core/rtw_ieee80211.c:307-341 | If no such element is near the end of the list, the list alone decides: the condition can be read off before the call |
| Tlv.SurvivingFits | core/rtw_ieee80211.c:307-341 | What is left is a list of elements none of which carries the OUI |
| Tlv.WithoutNone | core/rtw_ieee80211.c:307-341 | Filtering changes a list exactly if something in it matches |
| ElementEdit.SetIe | core/rtw_ieee80211.c:143-162 | Identifier, length and body are written at the place, nothing else changes, and the lengths returned follow |
| ElementEdit.PrintsElementIff | core/rtw_ieee80211.c:143-162 | What is printed is one element exactly for bodies of at most 255 octets |
| ElementEdit.GetIe | core/rtw_ieee80211.c:220-247 | The loop computes the search and returns the body length, or 0; with no room to search the length is left alone |
| ElementEdit.GetIeEx | core/rtw_ieee80211.c:261-294 | The loop computes the search by identifier and OUI, and returns the whole length of what it finds |
| ElementEdit.RemoveIe | core/rtw_ieee80211.c:307-341 | On every list of complete elements: what is left is `Tlv.Surviving` of it and the octets behind it, in order; nothing in front of the list or behind it changes, and success is returned exactly if something went |
| ElementEdit.StumpGoes | core/rtw_ieee80211.c:261-294 | A list without an element of that OUI from which one goes all the same |
| ElementParser.Parse | core/rtw_ieee80211.c:1115-1253 | Fails exactly when the buffer is not a concatenation of complete elements (section 7.3.2 of IEEE 802.11-2007); otherwise every field points where the elements, recorded in order, put it, and unknown ones are reported |
| ElementParser.ReportsLast | core/rtw_ieee80211.c:1121-1239 | For a known identifier the parser reports the last element carrying it |
| ElementParser.ReportsLastFor | core/rtw_ieee80211.c:1115-1239 | For every field, the vendor ones included, the parser reports the last element recorded in it |
| ElementParser.VendorSlotIff | core/rtw_ieee80211.c:1010-1100 | The vendor fields by the octets a body begins with: WPA, WME, WME TSPEC, WPS and the vendor HT capabilities, each exactly |
| ElementParser.ReportsNothing | core/rtw_ieee80211.c:1121-1239 | Nothing is reported for an identifier that does not occur |
| ElementParser.SearchReportsFirst | core/rtw_ieee80211.c:220-247 | The search reports the first element of an identifier |
| ElementParser.SearchAndParserAgreeIff | core/rtw_ieee80211.c:1115-1253 | Search and parser agree on an identifier exactly when it occurs once |
| ElementParser.PrintedBehind | core/rtw_ieee80211.c:143-162 | Printing behind a list of elements gives the longer list |
| ElementParser.PrintedParses | core/rtw_ieee80211.c:143-162 | A whole list printed element by element, with bodies of at most 255 octets, parses as that list |
| P2pAttributes.GetP2pAttr | core/rtw_ieee80211.c:1620-1661 | Finds the first attribute of the identifier in an element that passes for a P2P one, with its whole length |
| P2pAttributes.GetP2pIe | core/rtw_ieee80211.c:1570-1608 | Computes the search for the P2P OUI; a negative length finds nothing |
| P2pAttributes.AttrRemove | core/rtw_ieee80211.c:1713-1750 | All attributes of the identifier go from the element, its length octet follows, and no octet outside it changes |
| P2pAttributes.RemoveP2pAttr | core/rtw_ieee80211.c:1752-1782 | The whole list afterwards is the original with the first P2P element's attributes filtered, unless a stump hides it; lengths follow, freed octets are cleared, nothing else changes |
| P2pAttributes.RemovesIff | core/rtw_ieee80211.c:1752-1782 | The filtered list is what results exactly when no shorter vendor element completes the OUI in front, or there was nothing to remove |
| P2pAttributes.ShadowedExample | core/rtw_ieee80211.c:1586-1602 | A list where such an element hides the P2P one |
| Beacon.AddBcnIe | core/rtw_ap.c:191-255 | The description holds the list with the element put in its place, or the old list when there is no anchor; the fixed part is untouched |
| Beacon.FindSlot | core/rtw_ap.c:199-214 | The loop finds the match, or the last element with a smaller identifier |
| Beacon.AddsIff | core/rtw_ap.c:216-232 | Adding replaces or inserts exactly when the match or the predecessor has a body (or an empty element replaces an empty one) |
| Beacon.PutSorted | core/rtw_ap.c:191-255 | A list sorted by identifier stays sorted |
| Beacon.PutIsFirst | core/rtw_ap.c:191-255 | The new element is the first of its identifier |
| Beacon.PutKeepsOthers | core/rtw_ap.c:191-255 | All elements with other identifiers stay, in order |
| Beacon.RemoveBcnIe | core/rtw_ap.c:257-293 | The first element of the identifier goes if it has a body; otherwise nothing changes |
| Beacon.RemovesFirst | core/rtw_ap.c:257-293 | The list without its first element of that identifier, or the same list if that element is empty |
| Beacon.RemoveUndoesAddIff | core/rtw_ap.c:257-293 | Removing an identifier that was absent before it was added restores the list exactly when nothing was added or the element has a body |
| Beacon.SameOctets | core/rtw_ap.c:257-293 | The same list behind the same fixed part is the same octets and the same length, so that the restored list is the restored buffer |
| TrafficMap.UpdateBcnTim | core/rtw_ap.c:77-189 | The TIM's octets take the place of the old one's, or are written at the computed offset, and what stands behind moves; the list has the TIM whenever there was one or the offset is an element boundary, and otherwise exactly if nothing but copies of the TIM separates the two; the bitmap control written there announces group traffic exactly if association 0 has some; the fixed part is untouched |
| TrafficMap.TakesTimIff | core/rtw_ap.c:109-186 | Octets put in at the offset are the TIM put into the list somewhere exactly under that condition |
| TrafficMap.BeyondNever | core/rtw_ap.c:109-186 | A TIM written beyond the end of the description is never in the list, though the description grows by its length |
| TrafficMap.TimInsideElement | core/rtw_ap.c:109-133 | A list without DS parameters in which the TIM is written into the middle of an element, with no list of elements left |
| TrafficMap.HeadOffset | core/rtw_ap.c:109-133 | A new TIM goes behind the lengths of SSID, supported rates and a three-octet DS element |
| TrafficMap.LeadingThree | core/rtw_ap.c:109-133 | That is an element boundary, behind these three, when they lead the list |
| TrafficMap.TimIsFirst | core/rtw_ap.c:95-135 | Without an empty TIM in front the first TIM afterwards is the new one |
| TrafficMap.TimKeepsOthers | core/rtw_ap.c:95-186 | All elements that are no TIM stay, in order |
| TrafficMap.LastTimWinsIff | core/rtw_ap.c:95-107 | A second update overwrites the first exactly if there was a TIM or there is no empty one in front of the place |
| TrafficMap.TimsPileUp | core/rtw_ap.c:95-135 | Otherwise every update of a series puts in one more TIM |
| TrafficMap.EmptyTimExample | core/rtw_ap.c:95-135 | A list of that kind |
| TrafficMap.TimIsFaithfulIff | core/rtw_ap.c:144-175 | On a little-endian host the TIM decodes (section 7.3.2.6 of IEEE 802.11-2007) to exactly the associations 1 to 15 of the map when bits 8 to 15 are clear or bits 1 to 7 are not all clear |
| TrafficMap.TimIsFaithfulBigEndianIff | core/rtw_ap.c:144-175 | On a big-endian host exactly when both octets are in use or neither is |
| TrafficMap.GroupTrafficIff | core/rtw_ap.c:144-175 | For every map and host: count 0, period 1, and of the bitmap control only bit 0 in use, set exactly if association 0 has traffic (section 7.3.2.6 of IEEE 802.11-2007) |
| StationAgeing.SilentIsRemoved | core/rtw_ap.c:401-557 | A silent station is removed within E + 4 sweeps if awake, within 2 E + 8 plus E for every stall if asleep, whatever happens to the candidate bit |
| StationAgeing.PatienceRunsDown | core/rtw_ap.c:417-547 | Every silent sweep uses up one unit of the time bound, except a stall, which adds E |
| StationAgeing.SleepingIsRemovedIff | core/rtw_ap.c:461-526 | A silent sleeping station, as a reset leaves it, is removed within 2 E + 8 sweeps exactly if it cannot be probed, the candidate bit is set at sweep E, or it is clear at sweeps E + 2, E + 4 and E + 6 |
| StationAgeing.RemovedIffNeverStalled | core/rtw_ap.c:461-526 | In other words exactly if it never gets a new period in the middle of the probes |
| StationAgeing.NeverRemoved | core/rtw_ap.c:461-526 | Left alone with its candidate bit still set after the first probe it is never removed |
| StationAgeing.BoundsAreReached | core/rtw_ap.c:461-547 | With the bit clear at every sweep the station stays until the bound, to the sweep |
| StationAgeing.NeverTooEarly | core/rtw_ap.c:417-426 | A removal comes at the end of at least E silent sweeps in a row |
| StationAgeing.AliveResets | core/rtw_ap.c:417-426 | After every run that ends with frames coming in a station still there has its full period and no tries, and is otherwise as before |
| StationAgeing.SilentSinceFrameIsRemoved | core/rtw_ap.c:401-557 | Counted from the last frame of any run: silent for E + 4 sweeps if awake, for 2 E + 8 plus E for every stall if asleep, and the station is gone |
| StationAgeing.AwakeIsKeptIff | core/rtw_ap.c:417-547 | An awake silent station with a full period is kept exactly for fewer than E sweeps, or than E + 4 if it can be probed and the candidate bit is clear each time, and where it stands by then |
| StationAgeing.RousedIff | core/rtw_ap.c:461-540 | When the TIM announces traffic to rouse a station, by its timer, tries, checking flag, A-MPDU and candidate bit: only when the time of a sleeping one runs out, and then it is kept with a full period |
| StationAgeing.RousedBeforeGone | core/rtw_ap.c:461-547 | No sleeping station is removed unless the TIM announced traffic for it in the same run more than E sweeps before |
| StationAgeing.WakesIff | core/rtw_ap.c:541-557 | Without divisions: a station whose time has not run out is woken exactly if its queued frames are more than its share of the transmit frames and fewer than half a share are free |
| StationAgeing.TableFollows | core/rtw_ap.c:401-557 | Over a series of sweeps each of many stations is kept and changed as if it were alone |
| StationAgeing.SilentStationsGo | core/rtw_ap.c:401-557 | So the bounds hold for all silent stations of the table at once |
| StationAgeing.StaInfo.ChkStaIsAlive | core/rtw_ap.c:297-326 | Alive exactly if data or control frames came in since the last call |
| StationAgeing.StaInfo.Age | core/rtw_ap.c:417-547 | One station's part of the sweep does what the specification of a sweep says |
| StationAgeing.StaPriv.ExpireTimeoutChk | core/rtw_ap.c:382-559 | After the sweep the list is what stays of it, in order, each station on it exactly if the sweep keeps it and as the sweep leaves it, and those woken are the ones whose queued frames take more than their share; the count is the length of the list throughout, so that the divisions by it are defined |
| StationAgeing.StaPriv.Associate | core/rtw_mlme_ext.c:2243-2249 | A station not yet on the list goes to its tail with a full period, and the count follows |
| StationCaps.AccessPoint.BssCapUpdateOnStaJoin | core/rtw_ap.c:2447-2628 | All six counters equal the numbers of stations with their flags, the HT mode is the recomputed one while `ht_option` is off, the ERP octet is written on the edges only, and the update is reported exactly when one of the three kinds of stations appears or disappears |
| StationCaps.AccessPoint.BssCapUpdateOnStaLeave | core/rtw_ap.c:2630-2699 | The same for a station that leaves |
| StationCaps.AccessPoint.RtwHtOperationUpdate | core/rtw_ap.c:2344-2413 | From any mode: what the counters and `olbc_ht` call for (section 7.3.2.57 of IEEE 802.11n-2009); 0 returned exactly if nothing changed |
| StationCaps.AccessPoint.UpdateBcnErpinfoIe | core/rtw_ap.c:2089-2121 | The octet written when ERP is enabled and the element is there |
| StationCaps.AccessPoint.constructor | core/rtw_ap.c:2986-3009 | An access point starts with all counters and the mode at zero |
| StationCaps.AccessPoint.Allocate | core/rtw_sta_mgt.c:315-420 | A station allocated has no flags, and no count changes |
| StationCaps.CountChanges | core/rtw_ap.c:2466-2500 | Changing one station changes every count by what its own flags change |
| StationCaps.JoinDescribesIff | core/rtw_ap.c:2570-2614 | After a join the flags describe the station exactly unless it joins again having gained greenfield or 40 MHz, or given up HT |
| StationCaps.UnwrittenModeIsRightIff | core/rtw_ap.c:2350-2351 | With `ht_option` on the mode stays 0, right exactly while nothing calls for protection |
| StationCaps.ModeBits | core/rtw_ap.c:2344-2413 | Bit by bit what the recomputed mode says: greenfield, non-HT and the four protection modes, each by the stations that call for it (section 7.3.2.57 of IEEE 802.11n-2009) |
| StationCaps.ProtectionFollowsStations | core/rtw_ap.c:2503-2527 | Over every run of joins, rejoins and leaves the beacon asks for protection exactly while there is a non-ERP station (section 7.3.2.13 of IEEE 802.11-2007) |
| StationCaps.BarkerRightIff | core/rtw_ap.c:2112-2115 | Right to begin with, the Barker bit is right after every event of a run exactly if stations without short preambles first come and last go only together with non-ERP ones |
| StationCaps.BarkerExample | core/rtw_ap.c:2466-2478 | A first station without short preambles that is an ERP one leaves the Barker bit wrong |
| ScanTable.MlmePriv.AllocNetwork | core/rtw_mlme.c:225-261 | Takes the first free node, reset and stamped, and counts it; nothing when the pool is empty |
| ScanTable.MlmePriv.FreeNetwork | core/rtw_mlme.c:263-305 | A node goes back to the pool exactly if it is not fixed and old enough or all are freed; the lists stay a partition and the counter follows |
| ScanTable.MlmePriv.GoesByAge | core/rtw_mlme.c:263-305 | By age, while a thousand times the age fits 32 bits: a node that is not fixed goes exactly if all go or it is at least twenty seconds old, one millisecond in ad-hoc mode |
| ScanTable.MlmePriv.FreeNetworkQueue | core/rtw_mlme.c:385-415 | The nodes that stay keep their order, those that go are appended to the pool in order |
| ScanTable.MlmePriv.FreeScanqueue | core/rtw_mlme.c:1360-1388 | Every node goes back to the pool, fixed or not |
| ScanTable.MlmePriv.FindNetwork | core/rtw_mlme.c:342-382 | The first entry with the address; none for the zero address |
| ScanTable.MlmePriv.FreeNetworkNolock | core/rtw_mlme.c:307-334 | Takes a node off whichever list it is on and counts down |
| ScanTable.MlmePriv.FreeAssocResources | core/rtw_mlme.c:1457-1480 | The lists stay a partition; the counter is one too low exactly if a node was found in an ad-hoc master with one station |
| ScanTable.MlmePriv.Search | core/rtw_mlme.c:873-903 | The loop finds the entry that is the same network, or else the oldest |
| ScanTable.MlmePriv.UpdateScannedNetwork | core/rtw_mlme.c:846-991 | For every report a node is refreshed, taken from the pool or the oldest, and no other changes; it is an entry of the network exactly if the capabilities come with the report or were the same, and then no two entries are the same network, otherwise exactly if no other entry is what the node now holds; the lists stay a partition with the counter right; the node holds the report, element octets in use included, when entered, or refreshed by a frame that is no probe request and ranks no lower than what it holds, and otherwise keeps its elements; strength, quality and rssi are the report's when entered, and the averages or the link's own when refreshed |
| ScanTable.CopyIsSameIff | core/rtw_mlme.c:597-632 | A copied description is the same network exactly if its capabilities are among the octets copied or agree with what was there |
| ScanTable.TwinExample | core/rtw_mlme.c:914-945 | A report without capabilities that makes a second entry of another network |
| ScanTable.SameIsEquivalence | core/rtw_mlme.c:597-632 | Being the same network is an equivalence |
| ScanTable.SmoothedIsBetween | core/rtw_mlme.c:742-750 | The averaged signal lies between sample and history, rounding included |
| ScanTable.SmoothedAverages | core/rtw_mlme.c:742-750 | Five times the average is four of history and one of sample, off by the remainder that C leaves towards zero |
| ScanTable.EnteredHoldsReport | core/rtw_mlme.c:914-953 | A node entered is the report in every field and in the octets in use, with what was there behind them and an unknown quality set to 0 |
| ScanTable.UpdatedHoldsReport | core/rtw_mlme.c:703-763 | A refreshed node takes the report's elements exactly under the test on the frame types, and each figure of the signal comes from the link, the average or stays |
| ScanTable.OldestIsLeast32 | core/rtw_mlme.c:898-899 | With 32-bit words the entry evicted has least time as long as no two are half the range apart |
| ScanTable.OlderOfTwo32Iff | core/rtw_mlme.c:898-899 | Of two entries the older is found exactly if they are less than half the range apart, or just half of it with the first one later |
| ScanTable.OldestIsLeast64Iff | core/rtw_mlme.c:898-899 | With 64-bit words exactly if the 32-bit stamps have not wrapped between any two |
| ScanTable.PassingIsAgeIff | core/rtw_mlme.c:283-287 | The age comes out right in milliseconds exactly while a thousand times the age in ticks fits 32 bits |
| DhcpFlag.DhcpFlagBcast | core/rtw_br_ext.c:1516-1554 | The frame is changed exactly if it is a DHCP request without the flag, and then in the flags and the checksum only |
| DhcpFlag.PatchedIff | core/rtw_br_ext.c:1516-1554 | By octets: a frame changes exactly if the feature is on and it is IPv4 and UDP from port 68 to port 67 with the DHCP cookie and the flag clear; then the flag octet gains its top bit and only the checksum changes besides |
| DhcpFlag.Fold | core/rtw_br_ext.c:1543-1547 | The folding loop ends with the one's-complement value of the sum |
| DhcpFlag.SumIsKeptIff | core/rtw_br_ext.c:1541-1547 | The datagram's sum modulo 65535 is kept exactly if the other flags were zero (RFC 1624, section 3; RFC 2131, section 2) |
| DhcpFlag.PatchKeepsSumIff | core/rtw_br_ext.c:1536-1548 | The same on the octets of the frame, for every datagram length and pseudo header |
| DhcpFlag.SumInEitherOrder | core/rtw_br_ext.c:1543-1547 | A datagram sums to zero in one octet order exactly if it does in the other (RFC 1071) |
| DhcpFlag.AdjustedIsZeroIff | core/rtw_br_ext.c:1547 | The new checksum is zero, which means none, for exactly one old one |
| DhcpFlag.NoneBecomesSome | core/rtw_br_ext.c:1543-1547 | A datagram without a checksum gets one that depends on the flag alone |
| PowerSequence.HalPwrSeqCmdParsing | hal/HalPwrSeqCmd.c:48-177 | The nested loops terminate for every array with a matching END and every device, with the outcome and the trace of register accesses the sequence means |
| PowerSequence.PollLoop | hal/HalPwrSeqCmd.c:131-149 | The inner loop polls as often as the specification says |
| PowerSequence.RunsSelected | hal/HalPwrSeqCmd.c:77-80 | A chip behaves as on the steps meant for it alone, up to their first END |
| PowerSequence.Selected | hal/HalPwrSeqCmd.c:78-80 | The steps meant for a chip all match it and end with the only END |
| PowerSequence.MatchesIff | hal/HalPwrSeqCmd.c:78-80 | A step is for a chip exactly if fab, cut and interface each share a bit with the step's own mask |
| PowerSequence.RunPerforms | hal/HalPwrSeqCmd.c:77-170 | The trace is one segment for every step in order, of the kind the step calls for; a run that fails ends with the polls of one polling step that gives up |
| PowerSequence.WritesAndWaits | hal/HalPwrSeqCmd.c:86-165 | Registers written and delays made are in number and order exactly those of the steps for the chip, up to the failing poll if there is one, each with its register, its masked bits and its own unit of time |
| PowerSequence.ReadsAreAnswers | hal/HalPwrSeqCmd.c:86-149 | What is read over the whole run is the device's answers one after the other, none skipped or read twice |
| PowerSequence.WritesOnlyMaskedBits | hal/HalPwrSeqCmd.c:86-120 | Every write follows a read of the same register and changes masked bits only |
| PowerSequence.PollMeetsIff | hal/HalPwrSeqCmd.c:131-149 | A polling loop succeeds exactly if the device answers with the value while the counter is below the limit |
| PowerSequence.SucceedsIff | hal/HalPwrSeqCmd.c:77-149 | A sequence succeeds exactly if the device gives every polling step its value, and all of them together within 5001 polls |
| PowerSequence.LastPollFails | hal/HalPwrSeqCmd.c:145-148 | A value that comes with the 5002nd poll comes too late |
| PowerSequence.PollingBudget | hal/HalPwrSeqCmd.c:145-148 | At most 5002 polls over the whole sequence, which fails exactly when it makes that many |
| Eeprom.ShiftOutBits | core/rtw_eeprom.c:46-82 | At the rising clock edges the data line shows the low `count` bits, most significant first; in the end clock and data are low and the other bits untouched |
| Eeprom.ShiftInBits | core/rtw_eeprom.c:84-116 | Sixteen pulses, and the bits answered put together most significant first |
| Eeprom.ValueOfBits | core/rtw_eeprom.c:84-116 | Bits taken in the order they were sent make up the number again |
| Eeprom.OctetsMakeWord | core/rtw_eeprom.c:374-405 | Two octets from an even address on make up one word, the low octet first |
| Eeprom.EepromRead | core/rtw_eeprom.c:374-405 | The octets returned are the slice of the little-endian view of the words, for every offset and size; a size of zero at an odd offset reads 256 |

## Left out

- Register, USB and firmware access, timers and delays; a device is its answers to reads and the trace
  of writes.  Allocation succeeds, and `_rtw_memcpy` moves overlapping blocks correctly.
- Element lists that end in the middle of an element, except in `ElementParser.Parse`; the editors are
  proved on buffers that hold complete elements, with the few octets of room behind the last one that
  the searches look at and the room that an insertion needs.
- P2pAttributes.RemoveP2pAttr: for a first P2P element whose attributes are complete; the attribute walk over a cut-off one reads past the element.
- TrafficMap.UpdateBcnTim: for an offset beyond the description the length of the remainder wraps around to almost four gigabytes; the model takes it that there is no memory for a copy of that size.
- PPPoE frames shorter than the header, the session-stage branches of `nat25_db_handle`, the branch
  without relay tags, and the parsing of IP, IPX, AppleTalk, ARP and IPv6 frames: addresses are opaque
  keys of 17 octets.
- CommandThread: no `CONFIG_LPS_LCLK` branch, no memory barriers, the two stop tests after `down` are one step, and so is the drain of a command; the window between the last drain and clearing `cmdthd_running` is not modelled.
- StationAgeing.StaPriv.ExpireTimeoutChk: the first loop, over the authentication list, is left out, and so are the ATMEL and auto-AP exceptions; the value handed to `associated_clients_update` is only that of the last station freed, and the number of free transmit frames stays what it is during the sweep.  Resets of the timer elsewhere appear as the start of a run.
- Concurrent changes of `expire_to` by a channel-switch announcement.
- StationCaps: `num_sta_no_ht` is also counted up for overlapping networks in `core/rtw_mlme_ext.c:9943`, which the model leaves out; of the beacon only the ERP octet and the order of updates are kept, and `olbc_ht` never changes because nothing in the driver sets it.
- ScanTable.MlmePriv.UpdateScannedNetwork: P2P matching and antenna diversity are left out.
- ScanTable.MlmePriv.FreeAssocResources: only the part about the table; key, station and link handling are left out.
- DhcpFlag.DhcpFlagBcast: for frames as long as their headers say.
- Eeprom: no surprise removal, and the delays between edges are left out; `eeprom_read16` is a function from word number to word.
- PowerSequence.HalPwrSeqCmdParsing: the array holds an END for the chip; without one the loop runs past the array.  The mapping of SDIO and GSPI offsets is part of the address.
- Nat25Table: `unsigned long` has 64 bits; of the transmit path only the shortcut is modelled, not the VLAN tag and the copy of the bridge's own IP address.
- WPA, RSN and WAPI element parsing and the rate tables: fixed-format decoding and table lookups.  TDLS, the ioctls and the command builders: they assemble frames and requests around kernel and firmware calls.
