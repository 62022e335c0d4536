# PMLIN protocol core in Dafny

PMLIN is a master/slave protocol for a LIN-like single-wire bus. The master addresses one of up to 30 slaves in each exchange:

- It sends a break, a header byte (3-bit message class, 5-bit address) with its CRC8, and optionally a payload with its CRC8.
- Every byte on the wire comes back to its sender as an echo.
- The slave answers with an ACK, with a payload and CRC, or with a 5-byte command response.

This project models the protocol engine on both sides and proves properties of it:

- **Frame codec** (`crc8.dfy`, `protocol.dfy`):
  - CRC8 with seed 0xC5. The lookup table is proved equal to polynomial division by 0x31.
  - The header byte layout.
  - The command and INQUIRE response layouts.
  - The protocol constants.
- **Master** (`codes.dfy`, `exchange.dfy`, `directory.dfy`, `mirroring.dfy`, `config.dfy`, `autoconfig.dfy`):
  - the result codes;
  - `PMLIN_send_message`, `PMLIN_send_cmd_message` and `PMLIN_receive_message`, with the transport as an oracle;
  - the device directory built by `PMLIN_define_devices`;
  - the mirroring scheduler `PMLIN_mirror_tick`;
  - `PMLIN_renum_id` and `PMLIN_check_config`;
  - the auto-configuration algorithm `PMLIN_auto_config_internal`.
- **Slave** (`slave.dfy`, `slaverun.dfy`):
  - the eleven-state machine, driven by the byte-received, transmit-empty and timer interrupt handlers;
  - start-up, header and message handling;
  - runs of many interrupts, including the renumbering arbitration;
  - end-to-end lemmas where the master's frame bytes go through the slave's handlers and the slave's output goes back through the master's classification.

Modelling choices:

- **Master operations.** Each is a function or method over an explicit `Link` value: an initialised flag, a bus oracle and an exchange counter. Each returns its status, the new link and the list of `Transfer`s it made. One transfer records:
  - what was written after the break;
  - how many bytes were asked for;
  - what the oracle delivered, which is never more than requested (`master/src/pmlin-master.h:182`).
- **Master state.** The directory and the mirror table are values passed in, not globals.
- **Slave state.** The slave's globals are one `Slave` record, and each handler is a pure function returning the new record.
  - The device callbacks' answers come in a `Device` value.
  - Each callback the slave makes is returned as an `Effect`.
- **Integer types.**
  - Bytes are `bv8`, so `uint8_t` wrap-around (the header `(type << 5) + id`) is exact.
  - Device types and firmware versions are `bv16`.
  - Counters with a C width are bounded explicitly: the 16-bit ticker, timer and backoff.

## Model

| member | source | states |
|---|---|---|
| Crc.TableIsRemainder | master/src/pmlin-master.c:81-99 | every entry of the 256-byte table is the remainder of the index times x^8 divided by x^8+x^5+x^4+1 (0x31) |
| Crc.Crc8IsTableLookup | master/src/pmlin-master.c:100-102 | `PMLIN_crc8(crc, data)` is the table entry at `crc ^ data`; the slave's copy of the table is the same (slave/src/pmlin-slave.c:69-90) |
| Crc.DivideZeroIff | master/src/pmlin-master.c:81-99 | the division remainder is zero exactly for the zero byte |
| Crc.Crc8ZeroIff | master/src/pmlin-master.c:100-102 | one CRC step gives 0 exactly when the data byte equals the running CRC |
| Crc.FoldAppend | master/src/pmlin-master.c:133-139 | folding the CRC over two pieces is folding over the first, then over the second from there |
| Crc.FoldCons | master/src/pmlin-master.c:133-139 | folding over a byte then the rest is folding the rest from one CRC step on that byte |
| Crc.FoldSnoc | master/src/pmlin-master.c:133-139 | folding over a sequence and one more byte is one more CRC step after the fold |
| Crc.TrailerChecksToZero | master/src/pmlin-master.c:247-251 | a payload followed by its own folded CRC folds to 0 |
| Crc.TrailerZeroIff | slave/src/pmlin-slave.c:224-232 | a payload plus trailer folds to 0 exactly when the trailer is the payload's CRC |
| Protocol.SplitHeader | includes/pmlin.h:52-55 | the class (below 8) and id (below 32) taken out with the masks rebuild the header byte |
| Protocol.HeaderRoundTrip | includes/pmlin.h:52-55 | for class < 8 and id < 32, splitting `(class << 5) + id` gives back the class and the id |
| Protocol.MasksPartitionByte | includes/pmlin.h:53-87 | the class and id masks are disjoint and cover the byte, and so are the hardware-revision and button masks |
| Protocol.CommandRequest | master/src/pmlin-master.c:325-328 | a command request is 5 bytes, with the sub-command at index 0, its argument at index 1 and bytes 2-4 zero, as the master's zero-initialised command arrays leave them |
| Protocol.ResponseTypeRoundTrip | includes/pmlin.h:76-78 | reading bytes 0-1 of a response big-endian gives back the type written as high and low byte |
| Codes.Status.Code | master/src/pmlin-master.h:43-56 | hard errors have codes 0..7, warnings 128 and 129, and only OK has code 0 |
| Codes.FromCode | master/src/pmlin-master.h:43-56 | decoding a byte finds a status exactly for the ten defined codes |
| Codes.CodeRoundTrip | master/src/pmlin-master.h:43-56 | decoding a status's code gives back that status |
| Codes.CodesDistinct | master/src/pmlin-master.h:43-56 | different statuses have different codes |
| Exchange.Wire | master/src/pmlin-master.c:128-139 | what the master writes starts with the header `(type << 5) + id` and has at least header and header CRC |
| Exchange.Transact | master/src/pmlin-master.h:181-182 | one exchange asks the oracle for a number of bytes, gets at most that many and advances the exchange counter |
| Exchange.Frame | master/src/pmlin-master.c:128-139 | a frame is `len + 3` bytes: the header, its CRC, the payload at offset 2 and a trailer |
| Exchange.EncodeFrame | master/src/pmlin-master.c:128-139 | the frame the loop builds is `len + 3` bytes and decodes back to the header and payload |
| Exchange.DecodeFrame | slave/src/pmlin-slave.c:200-232 | a frame is accepted only with at least 3 bytes, and its payload is the bytes between header CRC and trailer |
| Exchange.DecodeEncode | master/src/pmlin-master.c:128-139 | decoding an encoded frame gives back the split header and the payload |
| Exchange.DecodeRejectsBadTrailer | slave/src/pmlin-slave.c:224-232 | a frame whose trailer is not the payload's CRC is rejected |
| Exchange.SendMessage | master/src/pmlin-master.c:124-171 | NOT_INITIALIZED without an exchange when uninitialised; otherwise one exchange of the whole frame, asking for `len + 5` bytes, with the status classified from what came back |
| Exchange.SendReadFitsBuffer | master/src/pmlin-master.c:128-143 | the `len + 5` bytes read back fit the 259-byte buffer exactly when `len <= 254` |
| Exchange.SendStatusCases | master/src/pmlin-master.c:162-169 | NO_RESP iff `len + 4` bytes came back, TIMEOUT iff fewer, NO_ACK iff `len + 5` with a last byte other than 0x55, OK iff `len + 5` ending in 0x55 |
| Exchange.SendIgnoresEcho | master/src/pmlin-master.c:162-169 | two replies of equal length with the same last byte get the same status: echoed payload bytes are never compared |
| Exchange.SendToSilentBus | master/src/pmlin-master.c:162-163 | when only the break and the frame's own echo come back, the status is NO_RESP |
| Exchange.SendAcknowledged | master/src/pmlin-master.c:162-169 | the echo followed by 0x55 gives OK |
| Exchange.ReceiveOutcome | master/src/pmlin-master.c:246-277 | NO_RESP iff 3 bytes came back, TIMEOUT iff any other count below `len + 4`, OK iff `len + 4` bytes whose trailer is the payload's CRC, CRC_ERROR otherwise; the caller's buffer gets bytes 3.. of what came back even on error |
| Exchange.ReceiveMessage | master/src/pmlin-master.c:228-278 | NOT_INITIALIZED without an exchange when uninitialised; otherwise a poll of header and header CRC only, asking for `len + 4` bytes |
| Exchange.ReceiveOkCondition | master/src/pmlin-master.c:247-251 | the CRC loop over buffer bytes 3..len+3 ends at 0 exactly when the payload read is what came back and the trailer is its CRC |
| Exchange.ReceiveWindow | master/src/pmlin-master.c:269 | the payload copied out holds every byte that arrived at its offset, and is exactly the bytes read when all `len + 4` arrived |
| Exchange.ReceiveRoundTrip | master/src/pmlin-master.c:228-278 | a slave answering a poll with a payload and its CRC makes the master read OK and exactly that payload |
| Exchange.CmdResponse | master/src/pmlin-master.c:199-200 | the 5 response bytes are copied from offset 9 whatever the status, with zeros for bytes that never arrived |
| Exchange.CmdResponseReadsBuffer | master/src/pmlin-master.c:186-200 | the response is the slice of the master's local buffer at offset 9 |
| Exchange.CmdStatusReadsBuffer | master/src/pmlin-master.c:195-200 | after a full read, the buffer the status is computed from holds exactly the bytes that arrived from offset 9 on |
| Exchange.SendCmd | master/src/pmlin-master.c:173-226 | NOT_INITIALIZED without an exchange when uninitialised; otherwise one exchange of the 8-byte command frame asking for 15 bytes, with status and response read from what came back |
| Exchange.CmdOkMeansValidResponse | master/src/pmlin-master.c:195-224 | OK exactly when all 15 bytes arrived and byte 14 is the CRC of bytes 9..13 |
| Exchange.CmdRoundTrip | master/src/pmlin-master.c:173-226 | the echo followed by a 5-byte response and its CRC gives OK and exactly that response |
| Exchange.CmdToSilentBus | master/src/pmlin-master.c:217-218 | when only the break and the command's echo come back, the status is NO_RESP |
| Directory.Latest | master/src/pmlin-master.c:283-285 | the declaration kept for an id is one of the given ones with that id, and there is none exactly when no declaration has that id |
| Directory.LatestIsLastDeclaration | master/src/pmlin-master.c:283-285 | a declaration with no later one of the same id is the one kept: the later duplicate wins |
| Directory.DefineDevices | master/src/pmlin-master.c:280-286 | after clearing all 32 slots, every slot holds the last declaration with that id, or nothing |
| Directory.SlotsMatchIds | master/src/pmlin-master.c:280-286 | every filled slot holds a declaration of its own id |
| Mirroring.NextTicker | master/src/pmlin-master.c:296-299 | the ticker counts down by one, and from 0 reloads to `period - 1` (to 0xFFFF for period 0); it stays below a nonzero period |
| Mirroring.TickerStaysInRange | master/src/pmlin-master.h:66-67 | a ticker in `[0, period)` stays there over any number of calls |
| Mirroring.TickerPeriodic | master/src/pmlin-master.h:66-67 | the ticker repeats with the period |
| Mirroring.TickerAfterCompose | master/src/pmlin-master.c:296-299 | `m` calls then `n` calls move the ticker as `m + n` calls do |
| Mirroring.FiringCallInWindow | master/src/pmlin-master.c:296-300 | within a window of `period` calls, the one call that sees the phase is determined by the ticker at the window start |
| Mirroring.ZeroPeriodReloadsToMax | master/src/pmlin-master.c:296-299 | with period 0 the 16-bit ticker wraps from 0 to 0xFFFF and otherwise counts down |
| Mirroring.ExactlyOncePerPeriod | master/src/pmlin-master.h:65-66 | in every window of `period` consecutive calls, exactly one call sees the ticker equal to the phase |
| Mirroring.FiresFromZero | master/src/pmlin-master.c:296-300 | from a fresh ticker of 0, the transfer happens on call `period - phase` |
| Mirroring.SlotOf | master/src/pmlin-master.c:301-303 | an entry has a message slot exactly when its device is declared |
| Mirroring.Serve | master/src/pmlin-master.c:295-316 | one entry: the ticker steps; nothing else happens unless it reaches the phase and the device is declared; then a send or receive in the slot's direction with the entry's buffer |
| Mirroring.TickFrom | master/src/pmlin-master.c:293-319 | the pass from entry `i` on keeps the table length and the entries before `i`, and keeps whether the master is initialised and its transport. OK exactly when no device is reported, and then every entry from `i` on stepped its ticker. Otherwise the reported device is that of an entry at or after `i` whose stepped ticker equals its phase and whose device is declared; the entries after it are as they were |
| Mirroring.TickFromStepsBeforeFailure | master/src/pmlin-master.c:294-314 | a failed pass stopped at an entry whose transfer was due and declared, after every entry up to it stepped its ticker, and left the later entries untouched |
| Mirroring.FailedEarlier | master/src/pmlin-master.c:294-314 | stopping at an entry in the rest of the pass, after the current entry stepped, is stopping there in the whole pass |
| Mirroring.TickFromKeepsIdleBuffers | master/src/pmlin-master.c:295-315 | an entry whose ticker misses its phase, or whose device is undeclared, keeps its buffer whether or not the pass fails |
| Mirroring.MirrorTick | master/src/pmlin-master.c:293-319 | the table keeps its length and idle entries keep their buffers. OK exactly when no device failed; then every ticker stepped, every entry was served in turn with OK, each on the link the earlier ones left, and the link is what the whole table leaves. A failure stops at an entry such that every earlier entry was served with OK, that entry was served on the link they left and its transfer failed, and the call ends with that entry's link and status |
| Mirroring.LinkAfter | master/src/pmlin-master.c:293-319 | serving entries in turn keeps whether the master is initialised and its transport; only the exchange count grows |
| Mirroring.TickFromServes | master/src/pmlin-master.c:293-319 | the pass from `i` serves each entry with `Serve` on the link the earlier entries left. It returns OK with the link after all of them, or it stops at the first entry whose transfer failed, with that entry's outcome |
| Mirroring.ServedThrough | master/src/pmlin-master.c:294-315 | a pass that served entry `i` with OK, followed by the pass from `i + 1` on, is a pass from `i` on |
| Mirroring.UndeclaredEntrySkipped | master/src/pmlin-master.c:302-303 | an entry of an undeclared device only steps its ticker |
| Mirroring.DueTransferNeedsLink | master/src/pmlin-master.c:304-310 | a due transfer on an uninitialised master fails with NOT_INITIALIZED and leaves the buffer as it was |
| Config.RenumAttemptsSnoc | master/src/pmlin-master.c:324-334 | one more failed-before RENUM command keeps the trace a sequence of RENUM attempts to the old id |
| Config.RenumId | master/src/pmlin-master.c:321-336 | NOT_INITIALIZED without an exchange when uninitialised; otherwise 1 to 1000 RENUM attempts, stopping at the first OK, the result being the last attempt's status, and 1000 attempts when all failed |
| Config.DeclaredInSound | master/src/pmlin-master.c:339-343 | every id the check visits is in range, not 31 and declared |
| Config.DeclaredInComplete | master/src/pmlin-master.c:339-343 | every declared id in 1..30 is visited |
| Config.DeclaredInIncreasing | master/src/pmlin-master.c:339 | the visited ids are in increasing order |
| Config.PairsMatchPairwise | master/src/pmlin-master.c:339-361 | a trace matches a list of ids pairwise exactly when it has two exchanges per id, each pair passing for its id |
| Config.PairsMatchAppend | master/src/pmlin-master.c:339-361 | after a matching prefix, the joined trace matches the joined ids exactly when the rest matches |
| Config.CheckOne | master/src/pmlin-master.c:346-359 | at most a PROBE and an INQUIRE; OK exactly when both came back OK and the reported big-endian type is the declared one |
| Config.CheckSpecCons | master/src/pmlin-master.c:339-361 | a passed id followed by a check of the rest is a check of the whole list |
| Config.CheckSpecFail | master/src/pmlin-master.c:349-359 | a failed id ends the check there, reporting that id and its status |
| Config.CheckDeclared | master/src/pmlin-master.c:339-361 | checking one declared id, then the rest, is a check of that id followed by the declared ids after it |
| Config.CheckFrom | master/src/pmlin-master.c:339-343 | the loop from id `id` on: OK exactly when every declared id passed, else it stopped at one |
| Config.CheckConfig | master/src/pmlin-master.c:338-363 | OK exactly when every declared id in 1..30 answered PROBE and INQUIRE with its declared type. Otherwise it stopped at a declared id, which is reported, and every earlier one passed. Uninitialised: no exchange, and NOT_INITIALIZED at the first declared id |
| AutoConfig.InitialView | master/src/pmlin-master.c:378-382 | all ids start marked for scanning, with the reserved type |
| AutoConfig.ScanOne | master/src/pmlin-master.c:394-416 | a PROBE, then an INQUIRE only when it answered OK; the type is recorded only when the INQUIRE answered OK |
| AutoConfig.ScanSummary | master/src/pmlin-master.c:390-417 | if every id was scanned correctly, rescanned ids hold an exchange result, the rest are unchanged, and uninitialised gives NOT_INITIALIZED |
| AutoConfig.Scan | master/src/pmlin-master.c:390-417 | every visited id whose result was neither OK nor NO_RESP is probed again; all other ids keep their entries |
| AutoConfig.ScanResults | master/src/pmlin-master.c:390-417 | after the scan, rescanned ids hold an exchange result, others are unchanged, and an uninitialised master marks them NOT_INITIALIZED |
| AutoConfig.FirstWith | master/src/pmlin-master.c:425-450 | the search returns 0 or the first visited id from `from` on whose result has the property |
| AutoConfig.TouchesMeans | master/src/pmlin-master.c:463-464 | an id is touched exactly when some renumbering moved a device from or to it |
| AutoConfig.MarkedSnoc | master/src/pmlin-master.c:463-464 | marking both ids of a new renumbering keeps `renum[]` holding ID_RENUM_WARNING exactly at the touched ids |
| AutoConfig.Renumber | master/src/pmlin-master.c:321-336 | uninitialised: NOT_INITIALIZED with no exchange. Otherwise a nonempty run of RENUM commands to the old id carrying the new id, each one before the last failed, and the result is the last one's status: OK, NO_RESP, TIMEOUT or CRC |
| AutoConfig.ConflictRound | master/src/pmlin-master.c:384-472 | one phase-1 round after the scan, with `c` the first conflicting id and `f` the first silent one. No conflict: Finished with no further exchange. No silent id: NO_FREE_ID_ERROR with no further exchange. Otherwise the exchanges after the scan are the renumbering of `c` to `f`. On OK both ids are marked, the move recorded, their results set to CRC_ERROR and the round restarts; on failure its status is returned and the arrays are those of the scan. Uninitialised, with every id still to be scanned: NO_FREE_ID_ERROR with no exchange |
| AutoConfig.ResolveConflicts | master/src/pmlin-master.c:384-472 | phase 1 keeps the moves made so far. Unless the fuel ran out, it ends Finished exactly when no id conflicts and NO_FREE_ID_ERROR exactly when one does and none is silent. Otherwise the trace ends with the renumbering of the first conflicting id to the first silent id, whose status is returned. Uninitialised: NO_FREE_ID_ERROR without an exchange |
| AutoConfig.RenumberConflict | master/src/pmlin-master.c:423-472 | after the scan, the round ends as `ConflictRound` states, starting from the scan's arrays and exchanges |
| AutoConfig.RenumberFound | master/src/pmlin-master.c:446-471 | the conflicting id `c` is renumbered to the silent id `f`. OK: both marked, the move recorded, both results CRC_ERROR, restart. Otherwise the failed status is returned with the scan's arrays |
| AutoConfig.ConflictStep | master/src/pmlin-master.c:384-472 | one round as the loop needs it: a restart keeps the earlier moves and adds one, and a round that does not restart ends phase 1 as `ResolveConflicts` states, with its renumbering at the end of the trace |
| AutoConfig.LastRound | master/src/pmlin-master.c:423-472 | a round that does not restart has searched the final arrays, so its ending is the end of phase 1 |
| AutoConfig.ConflictsEndMeans | master/src/pmlin-master.c:451-454 | NO_FREE_ID_ERROR comes with a conflicting id and no silent one |
| AutoConfig.ConflictPhase | master/src/pmlin-master.c:378-472 | phase 1 from the reset arrays: NO_FREE_ID_ERROR comes with a conflicting id and no silent one; a NO_RESP, TIMEOUT, CRC or NOT_INITIALIZED result is the status of the last exchange, a RENUM command; uninitialised gives NO_FREE_ID_ERROR without an exchange |
| AutoConfig.FindMove | master/src/pmlin-master.c:481-508 | a move found goes from an undeclared id that answers to a declared id that is silent |
| AutoConfig.FindMoveMeans | master/src/pmlin-master.c:481-508 | no move exactly when there is no extra id or no missing id; a found move is the latest pair by the time the loop has seen both kinds |
| AutoConfig.FindMoveNone | master/src/pmlin-master.c:481-508 | no move is found exactly when there is no extra id or no missing id |
| AutoConfig.MoveRemovesExtra | master/src/pmlin-master.c:500-504 | a move removes its source from the extra ids, so their count strictly decreases |
| AutoConfig.MovedKeeps | master/src/pmlin-master.c:492-507 | a move keeps the marks and the settled results and decreases the number of extra ids |
| AutoConfig.MoveExtras | master/src/pmlin-master.c:477-509 | phase 2 only moves devices into declared ids. Each move is the one the search picks on the arrays the earlier moves left, and the final arrays are those moves replayed on the start. It ends Finished exactly when the search finds no move, so no extra or no missing id is left. Otherwise its trace ends with the renumbering of the found move, whose status is returned |
| AutoConfig.MoveRound | master/src/pmlin-master.c:481-507 | one phase-2 round: no move found changes nothing; a move found goes from an extra id to a missing id, and either succeeds, updating the arrays and removing an extra id, or returns the renumbering's status with the arrays unchanged |
| AutoConfig.Moved | master/src/pmlin-master.c:497-507 | a successful move marks both ids in `renum[]`, leaves every other mark and records the move |
| AutoConfig.MoveView | master/src/pmlin-master.c:500-504 | a move makes its source silent with the reserved type, and gives the target an OK result with the source's type; other ids are unchanged |
| AutoConfig.ChosenCons | master/src/pmlin-master.c:481-507 | the move the search picks first, followed by the moves picked after it, is a sequence of picked moves |
| AutoConfig.ReplayCons | master/src/pmlin-master.c:497-507 | replaying moves is applying the first, then replaying the rest |
| AutoConfig.FindTypeConflict | master/src/pmlin-master.c:517-527 | the first answering id whose reported type differs from its declared one; an undeclared answering id is reported as a null dereference |
| AutoConfig.FindPartner | master/src/pmlin-master.c:532-542 | the first later id below 31 reporting the wanted type and itself in conflict; an undeclared one is reported as a null dereference |
| AutoConfig.SwapIds | master/src/pmlin-master.c:554-567 | the swap renumbers B to 0, then A to B, then 0 to A, each step only after the previous one answered OK, each step repeating its RENUM while it fails; the status is the last exchange's; uninitialised: NOT_INITIALIZED with no exchange |
| AutoConfig.SwapDevices | master/src/pmlin-master.c:554-567 | the swap's exchanges and status are those of the three renumberings B to 0, A to B and 0 to A as `SwapIds` states |
| AutoConfig.SwapAsWrittenCells | master/src/pmlin-master.c:570-572 | after the 8-bit exchange, A holds the low byte of B's old type, B holds A's old type, and every other id keeps its type |
| AutoConfig.SwapResolves | master/src/pmlin-master.c:570-572 | with full 16-bit types, the swap makes A consistent and strictly decreases the set of conflicting ids |
| AutoConfig.SwapAsWrittenKeepsConflict | master/src/pmlin-master.c:570-572 | with the 8-bit temporary, A stays in conflict whenever its declared type is 0x100 or more |
| AutoConfig.SwapAsWrittenExample | master/src/pmlin-master.c:515-574 | two crossed devices of types 0x0102 and 0x0201: as written, the next round finds no partner; corrected, it finds no conflict |
| AutoConfig.SwapAsWrittenAgrees | master/src/pmlin-master.c:570-572 | the 8-bit temporary gives the same types as a full exchange exactly when the partner's type is below 0x100 |
| AutoConfig.NoConflict | master/src/pmlin-master.c:515-525 | the conflict search finds nothing when every visited id from the start on is silent or declared with its reported type |
| AutoConfig.NoPartner | master/src/pmlin-master.c:532-540 | the partner search finds nothing when no id from the start up to the reserved id reports the wanted type |
| AutoConfig.FirstConflict | master/src/pmlin-master.c:515-525 | the conflict search from id 1 stops at the first answering, declared id in conflict when all visited ids before it are consistent |
| AutoConfig.SwapAsWrittenAddsNone | master/src/pmlin-master.c:570-572 | a swap as written adds no conflicting id |
| AutoConfig.SwapAsWrittenStalls | master/src/pmlin-master.c:515-572 | with a declared type of 0x100 or more, after a swap as written the same id is the first conflict and has lost the partner just used |
| AutoConfig.SwapAsWrittenProgress | master/src/pmlin-master.c:515-572 | a swap as written leaves fewer conflicts, or as many and fewer partners for the first conflict, so phase 3 cannot loop forever |
| AutoConfig.SwapAsWrittenRound | master/src/pmlin-master.c:549-572 | after a swap as written, the conflicting id is consistent exactly when its declared type is below 0x100, and the phase has made progress |
| AutoConfig.TypeRound | master/src/pmlin-master.c:515-574 | one phase-3 round decides by the search results: nothing in conflict ends the phase; an undeclared answering id is a null dereference; a conflict with no partner is TYPE_CONFLICT_ERROR; all of these without an exchange. Otherwise the conflicting id is swapped with the partner the searches pick: a later id below 31, declared, reporting A's declared type and itself in conflict. On OK the types are updated through the 8-bit temporary, A is consistent exactly when its declared type is below 0x100, and the phase progresses; on failure the swap's status is returned with the arrays unchanged |
| AutoConfig.ResolveTypes | master/src/pmlin-master.c:515-576 | phase 3 terminates. Each swap made is the pair the searches pick on the arrays the earlier swaps left, and the final arrays are those swaps applied to the start. The final arrays then decide the ending: every visited id consistent gives Finished, a missing partner TYPE_CONFLICT_ERROR, an undeclared answering id a null dereference; otherwise the trace ends with a failed swap of the pair the searches pick, whose status is returned |
| AutoConfig.Choose | master/src/pmlin-master.c:516-549 | the searches' decision: nothing left exactly when every visited id is consistent; a dereference names an undeclared id; no partner means every later id reporting the wanted type is itself consistent; a pair is the first conflicting id and a valid partner |
| AutoConfig.SwapPair | master/src/pmlin-master.c:549-572 | the swap of the picked pair: on OK the types are exchanged through the 8-bit temporary and the phase progresses; otherwise the arrays are unchanged and the failed status is returned |
| AutoConfig.TypeStep | master/src/pmlin-master.c:515-574 | one round as the loop needs it: a swap is the picked pair and exchanges its types; a round without a swap ends phase 3 as `ResolveTypes` states |
| AutoConfig.LastTypeRound | master/src/pmlin-master.c:515-574 | a round without a swap has searched the final arrays, so its ending is the end of phase 3 |
| AutoConfig.TypesEndMeans | master/src/pmlin-master.c:515-549 | the end of phase 3 read per result: Finished, TYPE_CONFLICT_ERROR and a null dereference each exactly when the searches say so |
| AutoConfig.ChosenSwaps | master/src/pmlin-master.c:549-574 | the pair picked first, followed by the swaps picked after it, is a sequence of picked swaps |
| AutoConfig.SwapsBetween | master/src/pmlin-master.c:532-542 | every swap picked pairs ids below 31 |
| AutoConfig.SettleTypes | master/src/pmlin-master.c:515-576 | phase 3 as the result sees it: TYPE_CONFLICT_ERROR and a null dereference come with arrays on which the searches pick them, and a NO_RESP, TIMEOUT, CRC or NOT_INITIALIZED result is the status of the last exchange, a RENUM command |
| AutoConfig.TypePhase | master/src/pmlin-master.c:515-578 | phase 3 and the code then returned: TYPE_CONFLICT_WARNING exactly when a swap happened, OK exactly when nothing changed, and the error cases as `SettleTypes` states |
| AutoConfig.LaterPhases | master/src/pmlin-master.c:477-578 | phases 2 and 3: completed means every visited id is consistent; a transfer error is the status of the last exchange, a RENUM command |
| AutoConfig.ResetMarks | master/src/pmlin-master.c:378-379 | ids 1..31 of `renum[]` start at OK and the rest of the array is untouched |
| AutoConfig.AutoConfigure | master/src/pmlin-master.c:372-579 | `renum[]` holds ID_RENUM_WARNING exactly at touched ids, outside ids 1..31 it is the caller's. Completed: every visited id is silent or answers with its declared type; OK iff nothing was changed; TYPE_CONFLICT_WARNING iff a swap happened. NO_FREE_ID_ERROR comes with a conflicting id and no silent one, TYPE_CONFLICT_ERROR and a null dereference with arrays on which the phase-3 searches pick them. A NO_RESP, TIMEOUT or CRC result is the status of the last exchange made, a RENUM command, so NOT_INITIALIZED never comes back. Uninitialised: NO_FREE_ID_ERROR without an exchange |
| Slave.PowerOn | slave/src/pmlin-slave.c:40-63 | the slave starts waiting for a break with id 1 |
| Slave.Initialize | slave/src/pmlin-slave.c:179-186 | the own id becomes the given one exactly when it is in 1..31, and 1 otherwise; the identifiers are stored |
| Slave.SetTimerPeriod | slave/src/pmlin-slave.c:188-190 | the timer period is stored and nothing else of the state machine changes |
| Slave.HandleId | slave/src/pmlin-slave.c:95-117 | header handling keeps the state in range, leaves the own id and never stores an id |
| Slave.RandomFill | slave/src/pmlin-slave.c:119-122 | bytes 0..4 are the low bytes of the random numbers drawn from index 4 down; the rest of the buffer is untouched |
| Slave.Backoff | slave/src/pmlin-slave.c:147-148 | the backoff is at most 31 slots and fits 16 bits |
| Slave.InquireResponseAsWritten | slave/src/pmlin-slave.c:151-168 | the INQUIRE response as written: type and firmware big-endian, the button bit, and the hardware-revision bits left from the command |
| Slave.HardwareRevisionDropped | slave/src/pmlin-slave.c:151-168 | as written, a slave whose revision is 5 answers an INQUIRE whose byte 4 is 0 with revision bits other than 5 |
| Slave.InquireResponse | slave/src/pmlin-slave.c:157-164 | the corrected INQUIRE response: type and firmware big-endian, hardware revision in bits 0-6 and button in bit 7 of byte 4 (layout of includes/pmlin.h:76-87) |
| Slave.Probe | slave/src/pmlin-slave.c:136-142 | PROBE loads five random bytes, drawn from index 4 down, sets the response length to 5 and starts transmitting; the own id stays and nothing is stored |
| Slave.Renum | slave/src/pmlin-slave.c:143-150 | RENUM remembers byte 1 of the command as the new id, loads five random bytes and waits a backoff of at most 31 slots, without enabling the transmitter; the own id stays |
| Slave.Inquire | slave/src/pmlin-slave.c:151-168 | INQUIRE drives the indicator from the enable and control bits of command byte 1, then starts transmitting a response with the big-endian device type and firmware and the button bit; bits 0-6 of byte 4 are the command's |
| Slave.HandleMessage | slave/src/pmlin-slave.c:124-177 | message handling keeps the state in range, leaves the own id and never stores an id |
| Slave.HeaderByte | slave/src/pmlin-slave.c:200-212 | the first header byte is stored and folded into the CRC; after the second, a nonzero CRC drops the frame silently, and the slave leaves the header only towards a frame addressed to its own id with a correct CRC |
| Slave.DataByte | slave/src/pmlin-slave.c:213-217 | each data byte goes to `handle_byte_received_from_host` and into the CRC; the slave expects the trailer once the device wants no more |
| Slave.CommandByte | slave/src/pmlin-slave.c:218-223 | each command byte is stored at the index and folded into the CRC, with no callback; the slave expects the trailer exactly when the command length is reached |
| Slave.TrailerByte | slave/src/pmlin-slave.c:224-232 | a wrong trailer drops the message without a callback. A right one acknowledges a data message and hands it to `end_transfer`; for a command, PROBE and INQUIRE start a response, RENUM starts the backoff, and anything else is dropped |
| Slave.EchoByte | slave/src/pmlin-slave.c:237-252 | an echoed byte changes the own id, and calls `store_id`, only when all five bytes came back and this byte is the CRC |
| Slave.OnByte | slave/src/pmlin-slave.c:192-257 | a received byte changes the own id to the pending one, and calls `store_id`, exactly when it completes a confirmation; otherwise the id stays |
| Slave.TxDone | slave/src/pmlin-slave.c:277-294 | once the source is exhausted, the running CRC goes out |
| Slave.OnTxEmpty | slave/src/pmlin-slave.c:259-296 | the transmit handler keeps the state in range and never touches the own id |
| Slave.OnTimer | slave/src/pmlin-slave.c:298-313 | the timer handler keeps the state in range and never touches the own id |
| Slave.BreakRestarts | slave/src/pmlin-slave.c:192-202 | from any state, a byte with a break becomes header byte 0 with the CRC started from the seed |
| SlaveRun.RunKeepsValid | slave/src/pmlin-slave.c:192-257 | a run of received bytes keeps every variable in range |
| SlaveRun.Replay | slave/src/pmlin-slave.c:192-313 | any interleaving of the three interrupts keeps the variables in range and the buffer accesses inside the 8-byte buffer |
| SlaveRun.RunAppend | slave/src/pmlin-slave.c:192-257 | receiving two pieces one after the other is receiving them joined |
| SlaveRun.IdleIgnores | slave/src/pmlin-slave.c:254-256 | while waiting for a break, received bytes change nothing |
| SlaveRun.CommandBytes | slave/src/pmlin-slave.c:218-223 | command bytes are stored in order at the index and folded into the CRC, and the check state follows the last one |
| SlaveRun.HearHeader | slave/src/pmlin-slave.c:192-212 | hearing a frame is: the break byte, the header CRC byte, then the rest |
| SlaveRun.HeaderRejected | slave/src/pmlin-slave.c:200-212 | a bad header CRC or a foreign id sends the slave back to wait for a break, with no callback |
| SlaveRun.HeaderCommand | slave/src/pmlin-slave.c:100-103 | a good header with its own id and class 7 prepares to receive 5 command bytes |
| SlaveRun.HeaderTransfer | slave/src/pmlin-slave.c:104-115 | any other class asks `init_transfer`: RX receives, TX transmits, any other answer ignores |
| SlaveRun.Ignored | slave/src/pmlin-slave.c:200-212 | a whole frame with a bad header CRC or a foreign id leaves the slave waiting, its id unchanged and no callback made |
| SlaveRun.OtherIdIgnored | slave/src/pmlin-slave.c:95-99 | any master request to another id is ignored entirely |
| SlaveRun.TrailerChecked | slave/src/pmlin-slave.c:224-232 | the trailer byte: a matching CRC hands over to message handling, any other byte drops the message silently |
| SlaveRun.CommandFrame | slave/src/pmlin-slave.c:200-232 | a command frame for the slave is handled with the command in the buffer when its trailer is right, and dropped otherwise |
| SlaveRun.CommandArrives | slave/src/pmlin-slave.c:192-232 | the bytes `PMLIN_send_cmd_message` writes for the slave's id reach message handling with the command loaded |
| SlaveRun.CorruptCommandDropped | slave/src/pmlin-slave.c:224-230 | a command frame with a wrong trailer is dropped without a callback |
| SlaveRun.DataAcknowledged | slave/src/pmlin-slave.c:129-133 | a data message that checked out is acknowledged and handed to `end_transfer` |
| SlaveRun.UnknownDropped | slave/src/pmlin-slave.c:169-171 | an unknown command is dropped without a callback, the slave waiting for a break with its id unchanged |
| SlaveRun.RenumReadies | slave/src/pmlin-slave.c:143-150 | RENUM fills the buffer with random bytes, remembers the new id, starts a backoff of at most 31 slots and keeps the own id |
| SlaveRun.InquireReadies | slave/src/pmlin-slave.c:151-168 | INQUIRE sets the indicator, loads type, firmware and button, leaves the command's bits 0-6 of byte 4 where the hardware revision belongs, and starts transmitting from index 0 |
| SlaveRun.BufferSent | slave/src/pmlin-slave.c:269-294 | the transmit handler sends the buffer from the index on, then the CRC of what it sent, then stops |
| SlaveRun.AckSent | slave/src/pmlin-slave.c:260-264 | after a data message, the ACK byte goes out once and the slave waits for a break |
| SlaveRun.TicksIdle | slave/src/pmlin-slave.c:298-299 | outside the backoff, timer ticks change nothing |
| SlaveRun.Waiting | slave/src/pmlin-slave.c:300-301 | while the timer is at least `j` periods, `j` ticks subtract `j` periods |
| SlaveRun.FiresAfter | slave/src/pmlin-slave.c:298-313 | with the timer in the `k`-th period, tick `k + 1` starts the confirmation |
| SlaveRun.Fires | slave/src/pmlin-slave.c:298-313 | with a nonzero period, the confirmation starts after `timer / period + 1` ticks |
| SlaveRun.ZeroPeriodNeverFires | slave/src/pmlin-slave.c:300-301 | with period 0 the backoff never ends |
| SlaveRun.BeatenToIt | slave/src/pmlin-slave.c:233-236 | a byte heard during the backoff abandons the renumbering: the slave waits for a break and later ticks do nothing |
| SlaveRun.EchoesCons | slave/src/pmlin-slave.c:239-243 | an echo matching its first byte matches exactly when the rest does |
| SlaveRun.EchoRun | slave/src/pmlin-slave.c:237-253 | the own id becomes the pending one, with one `store_id`, exactly when the echo is the five bytes sent followed by the CRC; otherwise it stays and nothing is stored |
| SlaveRun.EchoChecked | slave/src/pmlin-slave.c:237-253 | the same for the slave's own receive handler |
| SlaveRun.FiveSent | slave/src/pmlin-slave.c:269-294 | a prepared response goes out as the five buffer bytes and their CRC |
| SlaveRun.ProbeSent | slave/src/pmlin-slave.c:136-142 | a PROBE makes the slave transmit five random bytes and their CRC, then wait for a break with the same id |
| SlaveRun.ProbeReply | slave/src/pmlin-slave.c:192-294 | the same for the bytes `PMLIN_send_cmd_message` writes for a PROBE to the slave |
| SlaveRun.InquireSent | slave/src/pmlin-slave.c:151-168 | an INQUIRE makes the slave transmit type, firmware, the command's own revision bits and the button, followed by their CRC |
| SlaveRun.InquireReply | slave/src/pmlin-slave.c:192-294 | the same for the bytes `PMLIN_send_cmd_message` writes for an INQUIRE to the slave |
| SlaveRun.MasterReads | master/src/pmlin-master.c:195-224 | the master reads a 5-byte answer followed by its CRC as OK with exactly those bytes |
| SlaveRun.ProbeAnswered | slave/src/pmlin-slave.c:136-142 | a PROBE for the slave's id comes back to the master as OK, carrying the slave's random bytes |
| SlaveRun.InquireAnswered | slave/src/pmlin-slave.c:151-168 | an INQUIRE for the slave's id comes back as OK with the slave's type, firmware and button; the revision bits are the command's |
| SlaveRun.MasterInquireRevisionZero | master/src/pmlin-master.c:346-354 | the master's zero-filled INQUIRE comes back as OK with revision bits 0, whatever the slave's hardware revision |
| SlaveRun.RenumHeard | slave/src/pmlin-slave.c:143-150 | a RENUM for the slave's id starts the backoff with the new id pending, the own id unchanged |
| SlaveRun.ConfirmationSent | slave/src/pmlin-slave.c:298-313 | when the backoff runs out, the slave sends the five buffer bytes and their CRC and expects to hear them back |
| SlaveRun.LoneConfirmation | slave/src/pmlin-slave.c:233-253 | a lone slave's backoff runs out, it sends the confirmation, hears it back unchanged and takes the new id |
| SlaveRun.LoneSlaveRenumbered | slave/src/pmlin-slave.c:143-150 | a RENUM to a lone slave: the master reads the confirmation as OK, and the slave takes and stores the new id |
| SlaveRun.IdOnlyFromConfirmation | slave/src/pmlin-slave.c:233-252 | over any interleaving of interrupts, the own id is the initial one or the one taken by the last completed confirmation |

## Left out

- Console output (`ACD_PRINT`, the traffic dump, `PMLIN_print_out_devices`, `PMLIN_result_to_string`) has no protocol effect.
- Mutex locking and `PMLIN_initialize_master`'s wiring are not modelled. The `Link` value carries an `initialized` flag instead.
- The public wrappers `PMLIN_check_config` and `PMLIN_auto_config` only lock around the internal functions, so only the internal functions are modelled.
- The transport is an oracle from (exchange number, request, bytes requested) to bytes. It covers everything the bus and the other slaves could answer, but it does not compute them from slave models.
- Echoed bytes always equal what was sent; wired-AND collisions between slaves are not modelled.
- Exchange.SendMessage: `len = 255` overflows the 259-byte read buffer. This is stated as the precondition `|payload| <= 254`, and `Exchange.SendReadFitsBuffer` shows that this is exactly where the read fits.
- Uninitialised bytes of the master's local buffers are modelled as zero. This affects the `resp` and `data` bytes copied out after a short read.
- The floating-point backoff slot constant and its `PMLIN_BAUDRATE` name are replaced by the slave's `slot` field, an arbitrary 16-bit value.
- AutoConfig.ResolveConflicts: phase 1's restart has no bound in the code. The model takes a `fuel` count and stops with `OutOfFuel` when it runs out. The results hold for every run that finishes within the fuel.
- AutoConfig.FindTypeConflict: dereferencing an undeclared id's null directory entry is undefined behaviour in the code. The model stops with an explicit `NullDereference(id)` outcome.
- `Device` holds the device callbacks' answers for one handler call. A run of many interrupts uses one `Device`, so `handle_byte_received_from_host` gives the same answer for every byte of a run. For that reason, data-message runs are only proved one handler call at a time.
- `get_byte_to_transmit_to_host` is an `Option<byte>`. Values above 255 are not modelled.
- The slave's receive and transmit interrupts are modelled in sequence: a response is sent completely before its echo is processed.
- `SlaveRun.Recv` and `SlaveRun.Send` leave a state outside `Slave.Valid` unchanged. Every reachable state is valid, as `SlaveRun.Replay` shows, so this branch is never taken from a valid start.
- Slave.HandleId, Slave.HandleMessage, Slave.OnTxEmpty, Slave.OnTimer: their own contracts state only range and own-id facts. The command dispatch of `HandleMessage` is stated by `Slave.TrailerByte`, `Slave.Probe`, `Slave.Renum` and `Slave.Inquire`; the rest is stated by the SlaveRun lemmas listed above.
- Mirroring.TickFrom: its own contract does not say that the entries before a failure were served with OK or which link each was served on. `Mirroring.TickFromServes` states that, and `Mirroring.MirrorTick` carries it.
- AutoConfig.AutoConfigure, AutoConfig.LaterPhases, AutoConfig.TypePhase, AutoConfig.SettleTypes, AutoConfig.ConflictPhase: for a NO_RESP, TIMEOUT or CRC result, they say only that it is the status of the last exchange, a RENUM command. They do not say which phase failed or which ids that renumbering involved. `AutoConfig.ResolveConflicts`, `AutoConfig.MoveExtras` and `AutoConfig.ResolveTypes` state that for each phase, in terms of the arrays that phase ended with.
- Directory.DefineDevices: a declaration whose id is 32 or more writes outside `g_PMLIN_id_to_device`, which is undefined behaviour in the code. `Directory.ValidDevices` requires every id below 32 and at most 255 declarations, the range of `uint8_t num_devices`.
- Mirroring.Serve, Mirroring.TickFrom, Mirroring.MirrorTick: an entry whose device id is 32 or more, or whose message type is 8 or more, indexes past the directory or the slot array. An entry whose buffer is shorter than the slot's length is read or written past its end. Both are undefined behaviour in the code, so `Mirroring.ValidEntry` excludes them.
- Exchange.Transact: the oracle's answer is arbitrary, so the contract states only that it delivers at most the bytes requested.
- Device message catalogs, the demo programs and the slave emulator are outside the protocol engine.

## Findings

| source | as written | input that shows it | evidently intended | confidence | as-written member | corrected member |
|---|---|---|---|---|---|---|
| master/src/pmlin-master.c:570-572 | the swap copies `type[cnflct_id_2]` through `uint8_t tpy`, so the id receiving it keeps only the low byte of a 16-bit device type | ids 1 and 2 declared as 0x0102 and 0x0201, the devices answering crossed: after the swap id 1 records 0x02, the next round finds it in conflict again with no partner, and returns TYPE_CONFLICT_ERROR | a 16-bit temporary, so the two type entries trade places | high; not executed | AutoConfig.SwapAsWrittenExample | AutoConfig.SwapResolves |
| slave/src/pmlin-slave.c:151-168 | the INQUIRE handler never writes the hardware revision stored by `PMLIN_initialize` (slave/src/pmlin-slave.c:185); bits 0-6 of response byte 4 keep whatever the command's byte 4 held | a slave initialised with hardware revision 5 answering an INQUIRE whose byte 4 is 0 reports revision 0 | bits 0-6 of byte 4 carry the hardware revision, as the response layout in includes/pmlin.h:83-84 defines | high; not executed | Slave.HardwareRevisionDropped | Slave.InquireResponse |

Where the protocol description and the code differ, the model follows the code:

- `PMLIN_send_message` does not compare the echoed payload (`Exchange.SendIgnoresEcho`). It can never report CRC_ERROR. A corrupted frame is dropped by the slave without an ACK, so the master sees NO_RESP (`Exchange.SendToSilentBus`).
- A mirror entry whose ticker starts at 0 first transfers on call `period - phase`, counting calls from 1 (`Mirroring.FiresFromZero`). It does not transfer on the call whose count modulo the period equals the phase.
- Both findings above are modelled as written in the rest of the model, and the corrected definitions stand beside them:
  - the phase-3 loop updates the types with `AutoConfig.SwapTypesAsWritten`. The two updates agree whenever the declared type fits in a byte (`AutoConfig.SwapAsWrittenAgrees`), and phase 3 still terminates otherwise (`AutoConfig.SwapAsWrittenProgress`);
  - the slave answers INQUIRE with `Slave.InquireResponseAsWritten`, and `Slave.InquireResponse` is the corrected response.
