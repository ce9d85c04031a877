# OEM firmware: verified models

Dafny models of the OEM firmware services of this repository, with proofs of what they promise.
Firmware services that the code calls appear as scripts or contracts: the variable store, the memory map, dialogs,
sensors, the key derivation, the CRC. The logic around them is modelled as the code has it.

| files | what they model |
|---|---|
| `Bytes.dfy`, `Efi.dfy` | bytes, little-endian integers, buffer stores; status codes |
| `FacsHardwareSignature.dfy` | the FACS hardware signature builder |
| `VariableStore.dfy` | boot variables, their `Boot%04x` names, and LOCK_NOW policies |
| `LoadOptionEncoding.dfy`, `BootOrderModel.dfy`, `BootMenu.dfy` | the boot-order editor: entry encoding, the editor on values, and the driver class proved against it |
| `BootOrderProperties.dfy`, `BootOrderSafety.dfy`, `DeletionOffers.dfy`, `UneditedOrder.dfy` | what routing an edited list does to the order, the options and the store |
| `BootVariableLock.dfy`, `BootSession.dfy`, `DanglingOrder.dfy` | locking the boot variables, runs that mix editing, locking and other writes, and when they leave dangling entries |
| `PreBootChecks.dfy` | the power and thermal retry loop |
| `ConfigPolicy.dfy` | the config policy creator |
| `BootPolicy.dfy` | the device-path boot policy |
| `FrontPageMenu.dfy` | the front-page menu index table |
| `BootManagerSettings.dfy` | the versioned boot manager settings |
| `PasswordPolicy.dfy`, `PasswordStore.dfy` | password strings, hash format and store |
| `SmbiosStrings.dfy` | the SMBIOS string walker |

## Contracts of code outside the repository

- `EfiBootManagerGetLoadOptions` returns the options BootOrder names, in order, skipping those without a variable;
  `EfiBootManagerDeleteLoadOptionVariable` removes the first mention of the number from BootOrder;
  `EfiBootManagerLoadOptionToVariable` writes the option's variable.
- A LOCK_NOW policy makes writes and deletions of the name fail, whether or not the variable exists. Writing an empty
  BootOrder is a write of no data and deletes it.
- `GetMemoryMap` and `GetVariable` return no more than the size they are given. The descriptors read lie inside part 4 of
  the buffer, which every stride from 32 on guarantees (`FacsHardwareSignature.WideStrideFits`); section 7.2 of UEFI 2.8
  requires more than that.
- `GetConfigKnobOverride` changes the cache only when it succeeds. Variable-list conversion returns the size that
  `GetVarListSize` computes for the same name and value sizes, and each knob has its own cache memory.
- `IsDevicePathValid` accepts the paths whose nodes have a length of at least a header and which end in a 4-byte
  end node, less those it refuses for any other reason of its own; the platform's SD card path is valid. Section
  10.3.1 of UEFI 2.8 gives the encoding.
- The key derivation is a function of the password text and the salt that may fail and otherwise returns 40 bytes.
- The list flag bits are not defined in the repository; they are taken as any distinct bits above bit 16. The settings
  versions are any V1 < V2 < V3, the display limit any number up to 255, and the generic profile index any index
  outside the profile table.

## What the code does that a reader may not expect

- The FACS loop guard (`DescriptorSize >= 16`) keeps stores off unread fields but not reads inside the map:
  `GuardIsTooWeak`. The signature input does not fix the number of PCI devices: two counts can give the same bytes
  exactly when their even round-ups agree modulo 4: `PciCountsConfusedExactly`, with one device and two as the example in
  `PciCountIsNotRecoverable`.
- Hidden and app options in the displayed range look deleted when an unedited list is routed: `UneditedOffersTheHidden`.
  One confirmed deletion lets the whole new order be written, so unconfirmed options drop out of BootOrder too:
  `RouteEffects`.
- The deletion path is taken by comparing lengths. A list that names an option twice, or an option of the undisplayed
  tail, can fill every slot and drop a displayed option from BootOrder with no dialog: `RepeatedEntryDropsAnOption`,
  `TailEntryDropsAnOption`; `OffersAreTheMissing` gives the exact condition. The form declares a set of unique values
  (OemPkg/BootMenu/BootMenu.c:386), so such lists come from callers that send RouteConfig a configuration string of
  their own; `UniqueListOffersTheMissing` covers every list the form can send.
- A boot-now request, even a cancelled one, has already saved the checkboxes of the entries in front of it:
  `BootNowSavesEarlierCheckboxes`.
- Locking BootOrder without all its options makes dangling entries possible: `PartialLockWitness`. `LockedOrderDangles`
  says exactly when a call leaves one; `RouteDanglesExactly` and `RunNeverDangles` do so for any lock state and any run.
- A successful power mitigation leaves the power flag bad for that round; in the last round that means shutdown:
  `MsPreBootChecks`.
- Two entries with the same string id would break the menu numbering: `RemovalKeepsDense`. On a table that repeats an
  index, removals need not commute: `RepeatedIndexBreaksCommutation`. Form index 0xFFFF opens a
  removed entry: `FindForm`.
- A freshly created settings record has Version 0. If version 1 is number 0, the next start resets EnableUsbBoot and
  StartNetwork, even if they were changed in between: `FreshSettingSurvives`.
- An old settings record is lost, with success reported, when its conversion deletes it and then cannot write:
  `UpgradesKeepIPv6AndAltBoot`.
- A failed read that reports size 0 makes the password query write the delete marker: `IsPasswordSet`.
- A password longer than 128 characters cannot be set, but authenticates by its first 128: `AuthenticatePassword`.

Some proofs use `hide` to keep definitions they do not need out of the solver's way.

## Model

| member | source | states |
|---|---|---|
| `FacsHardwareSignature.CompactMap` | OemPkg/Library/UpdateFacsHardwareSignatureLib/UpdateFacsHardwareSignatureLib.c:296-326 | In-place compaction: for every stride from 16 on, the bytes behind the base become exactly the selected pairs of the map as it was before the loop, in order; nothing before the base or behind the last descriptor changes. |
| `FacsHardwareSignature.CompactStep` | OemPkg/Library/UpdateFacsHardwareSignatureLib/UpdateFacsHardwareSignatureLib.c:311-323 | One iteration: the pair stored is read from the original map although the write cursor may stand on the same descriptor; the bytes in front, the pairs kept so far and the map still unread stay as they are. |
| `FacsHardwareSignature.NextSelected` | OemPkg/Library/UpdateFacsHardwareSignatureLib/UpdateFacsHardwareSignatureLib.c:309-324 | One descriptor more adds the pair of its words at bytes 8 and 24 exactly when the type in its first four bytes is selected. |
| `FacsHardwareSignature.SelectionIsFilter` | OemPkg/Library/UpdateFacsHardwareSignatureLib/UpdateFacsHardwareSignatureLib.c:309-324 | On an encoded map of typed descriptors of one stride, the byte-level selection is the type filter of those descriptors, whatever bytes follow the map. |
| `FacsHardwareSignature.KeptPairsAreTheFilter` | OemPkg/Library/UpdateFacsHardwareSignatureLib/UpdateFacsHardwareSignatureLib.c:298-326 | A second GetMemoryMap reply of whole descriptors contributes exactly the filtered pairs, so unselected descriptors, other fields and slack do not matter. |
| `FacsHardwareSignature.GuardIsTooWeak` | OemPkg/Library/UpdateFacsHardwareSignatureLib/UpdateFacsHardwareSignatureLib.c:308-309 | The guard lets strides from 16 on through; the reads of a full map stay inside it exactly when the stride is at least 32. |
| `FacsHardwareSignature.LayoutIsDisjoint` | OemPkg/Library/UpdateFacsHardwareSignatureLib/UpdateFacsHardwareSignatureLib.c:187-231 | For all sizes the part starts and the total are even, each part holds what is stored in it, and the next one starts at the first even word that leaves room. |
| `FacsHardwareSignature.WrapsExactlyWhenTooLarge` | OemPkg/Library/UpdateFacsHardwareSignatureLib/UpdateFacsHardwareSignatureLib.c:187-236 | Computed in wrapping UINTN arithmetic, the allocation is the needed byte count exactly when that count is a UINTN value. |
| `FacsHardwareSignature.ComputeLayout` | OemPkg/Library/UpdateFacsHardwareSignatureLib/UpdateFacsHardwareSignatureLib.c:187-231 | The part starts computed step by step in wrapping UINTN arithmetic are those of the layout whenever the needed byte count is a UINTN value. |
| `FacsHardwareSignature.FillPart1` | OemPkg/Library/UpdateFacsHardwareSignatureLib/UpdateFacsHardwareSignatureLib.c:246-266 | Part 1 is the ids, XDsdt as two words, and a zero gap up to part 2; the overrun exit is not reachable. |
| `FacsHardwareSignature.FillHeader` | OemPkg/Library/UpdateFacsHardwareSignatureLib/UpdateFacsHardwareSignatureLib.c:246-288 | Parts 1 to 3 hold the PCI ids (0 when unreadable), XDsdt, version and settings at their indices, and every alignment gap stays zero. |
| `FacsHardwareSignature.BuildInput` | OemPkg/Library/UpdateFacsHardwareSignatureLib/UpdateFacsHardwareSignatureLib.c:236-329 | The bytes from the buffer start to the write cursor are the serialised inputs. |
| `FacsHardwareSignature.UpdateFacsHardwareSignature` | OemPkg/Library/UpdateFacsHardwareSignatureLib/UpdateFacsHardwareSignatureLib.c:89-350 | With the parts fitting the address space, the stored signature is the CRC of exactly the serialised inputs; it is unchanged, with the status of the first service that fails, when a service or the CRC call fails. |
| `FacsHardwareSignature.CrcSeesPciIds` | OemPkg/Library/UpdateFacsHardwareSignatureLib/UpdateFacsHardwareSignatureLib.c:246-256 | In the bytes handed to the CRC, word i is the id of device i when it is readable, and 0 when it is not. |
| `FacsHardwareSignature.DifferentIdsDiffer` | OemPkg/Library/UpdateFacsHardwareSignatureLib/UpdateFacsHardwareSignatureLib.c:246-334 | Two platforms that differ in the id of one device, an unreadable one counting as 0, have different CRC inputs, whatever else they have. |
| `FacsHardwareSignature.CrcSeesTheRest` | OemPkg/Library/UpdateFacsHardwareSignatureLib/UpdateFacsHardwareSignatureLib.c:258-288 | Behind the ids stand XDsdt as one 64-bit value, the version at the start of part 2 and the settings bytes at the start of part 3. |
| `FacsHardwareSignature.CrcSeesPairs` | OemPkg/Library/UpdateFacsHardwareSignatureLib/UpdateFacsHardwareSignatureLib.c:289-329 | The CRC input ends with the pairs kept, start before page count, and with none when the second GetMemoryMap fails or reports descriptors under 16 bytes. |
| `FacsHardwareSignature.BytesOfU32` | OemPkg/Library/UpdateFacsHardwareSignatureLib/UpdateFacsHardwareSignatureLib.c:254-274 | A word of the buffer is stored least significant byte first. |
| `FacsHardwareSignature.BytesOfU64` | OemPkg/Library/UpdateFacsHardwareSignatureLib/UpdateFacsHardwareSignatureLib.c:314-316 | A 64-bit field is its low word and then its high word. |
| `FacsHardwareSignature.SignatureRoundTrip` | OemPkg/Library/UpdateFacsHardwareSignatureLib/UpdateFacsHardwareSignatureLib.c:246-334 | The CRC input can be parsed back into PCI ids, XDsdt, version, settings and pairs when the PCI count and settings sizes are known. |
| `FacsHardwareSignature.SignatureIsInjective` | OemPkg/Library/UpdateFacsHardwareSignatureLib/UpdateFacsHardwareSignatureLib.c:246-334 | For a fixed PCI count and fixed settings sizes, equal CRC inputs mean equal inputs. |
| `FacsHardwareSignature.SharedBytesExactly` | OemPkg/Library/UpdateFacsHardwareSignatureLib/UpdateFacsHardwareSignatureLib.c:187-334 | Two shapes of input (PCI count and settings size each) have contents with the same CRC input if and only if their parts 1 to 3 have lengths that agree modulo 16 bytes, the size of a pair. |
| `FacsHardwareSignature.PciCountsConfusedExactly` | OemPkg/Library/UpdateFacsHardwareSignatureLib/UpdateFacsHardwareSignatureLib.c:187-334 | With one settings size, two PCI counts have contents with the same CRC input if and only if the counts rounded up to even agree modulo 4. |
| `FacsHardwareSignature.PciCountIsNotRecoverable` | OemPkg/Library/UpdateFacsHardwareSignatureLib/UpdateFacsHardwareSignatureLib.c:187-190 | An example of that: one device and two devices with suitable ids, and everything else but XDsdt the same, give the same CRC input. |
| `VariableStore.BootNameInjective` | OemPkg/BootMenu/BootMenu.c:1077 | Distinct 16-bit option numbers have distinct Boot%04x names. |
| `VariableStore.BootNameSpells` | OemPkg/BootMenu/BootMenu.c:1077 | The name is Boot and the four upper-case hexadecimal digits of the number, most significant first. |
| `LoadOptionEncoding.DecodeEncode` | OemPkg/BootMenu/BootMenu.c:358-365 | A list entry decodes to the option number it was made from; its checkbox and delete bits say whether the option is active and deletable; it never carries the boot flag. |
| `LoadOptionEncoding.EncodeLow` | OemPkg/BootMenu/BootMenu.c:358 | The low 17 bits of a list entry are the option number plus one. |
| `LoadOptionEncoding.DecodeIsOneLess` | OemPkg/BootMenu/BootMenu.c:920 | Decoding any entry gives the 16-bit number one below its low 16 bits. |
| `LoadOptionEncoding.AttributeBits` | OemPkg/BootMenu/BootMenu.c:341-362 | ACTIVE is attribute bit 0; an option with bit 3 or bit 8 is not shown; clearing ACTIVE leaves every other bit. |
| `LoadOptionEncoding.DefaultIgnoresActive` | OemPkg/BootMenu/BootMenu.c:264-274 | Ticking or clearing an option does not change whether it counts as a default. |
| `LoadOptionEncoding.DefaultMeans` | OemPkg/BootMenu/BootMenu.c:258-277 | An option counts as a default exactly when some default has its description and its attributes apart from ACTIVE. |
| `BootOrderProperties.EntryTells` | OemPkg/BootMenu/BootMenu.c:337-376 | A slot of the rebuilt list is non-zero exactly for an option in the displayed range that is neither hidden nor an app, and then tells its number and state; its delete bit is clear exactly when some default has that option's description and its attributes apart from ACTIVE. |
| `BootOrderSafety.LoadInOrder` | OemPkg/BootMenu/BootMenu.c:335 | An entry of BootOrder is loaded exactly when its variable exists, in its place, repeated entries included. |
| `BootMenu.BootMenuDriver.RebuildOrderList` | OemPkg/BootMenu/BootMenu.c:285-376 | The method with its two loops leaves the driver in the rebuilt state of the model, which `EntryTells` and `LoadInOrder` describe slot by slot. |
| `BootMenu.BootMenuDriver.ScanList` | OemPkg/BootMenu/BootMenu.c:917-1021 | The loop over the list, filling the new-order buffer in place without outgrowing it, is the scan of the model. |
| `BootMenu.BootMenuDriver.RouteConfig` | OemPkg/BootMenu/BootMenu.c:892-1124 | The whole BootOrderConfig branch, with in-place marking, prompts and writes, refines the routing function of the model for every edit and every dialog answer. |
| `BootOrderProperties.NewOrder` | OemPkg/BootMenu/BootMenu.c:917-1021 | Without a boot-now flag the new order is the listed non-zero entries in list order and then the undisplayed tail in its original order, and never longer than the option count. |
| `BootOrderProperties.ListedInOrder` | OemPkg/BootMenu/BootMenu.c:917-1003 | The listed numbers are decoded one by one from the entries at the filled positions, which rise. |
| `BootOrderProperties.FilledAreAll` | OemPkg/BootMenu/BootMenu.c:919 | The filled positions are exactly those of the non-zero entries. |
| `BootOrderProperties.ActiveFollowsCheckbox` | OemPkg/BootMenu/BootMenu.c:1004-1015 | With distinct numbers, a listed option ends with its ACTIVE bit equal to its checkbox and nothing else changed; every other option is as it was. |
| `BootOrderProperties.LastBoxIsLast` | OemPkg/BootMenu/BootMenu.c:1004-1015 | The checkbox that counts is that of the last entry naming the option, and there is none exactly when no entry names it. |
| `BootOrderProperties.ToggleWrites` | OemPkg/BootMenu/BootMenu.c:1004-1015 | A listed option is written only when its checkbox differs from its ACTIVE bit, and then with that bit flipped and everything else as loaded. |
| `BootOrderProperties.UnlistedIsNotWritten` | OemPkg/BootMenu/BootMenu.c:917-1021 | The variable of a number that no entry names is not written, whatever is stored, locked or repeated. |
| `BootOrderProperties.ScanKeepsSync` | OemPkg/BootMenu/BootMenu.c:1008-1011 | With nothing locked and distinct numbers, the variables follow the toggled options at every step of the scan. |
| `BootOrderSafety.CheckboxesAreSaved` | OemPkg/BootMenu/BootMenu.c:917-1119 | With distinct option numbers, variables in step with the loaded options and none of them locked: when the call returns, the variable of every option kept in the order has the ACTIVE state it was listed with. |
| `BootOrderSafety.RouteEffects` | OemPkg/BootMenu/BootMenu.c:1023-1119 | When a displayed slot is empty (the length guard), the options offered for deletion are the displayed ones missing from the new order, and otherwise none; the order is written unless something was offered and nothing confirmed; no offered number is in a written order; options in the order keep their variables. |
| `BootOrderSafety.LockSkipsTheCall` | OemPkg/BootMenu/BootMenu.c:892-911 | A call scans its list unless the boot order lock reads as on; a setting that cannot be read counts as off, and a call that does not scan changes neither options nor variables. |
| `BootOrderProperties.MissingInOrder` | OemPkg/BootMenu/BootMenu.c:1038-1042 | The options that the order lacks are offered in list order, each position once. |
| `DanglingOrder.RouteDeletesOnlyConfirmed` | OemPkg/BootMenu/BootMenu.c:1038-1090 | An option variable is gone after the call only if its option is displayed, missing from the order, confirmed and not locked. |
| `BootOrderProperties.DeletionUnlists` | OemPkg/BootMenu/BootMenu.c:1076 | The deletion of an option takes the first mention of its number out of a BootOrder that can be written. |
| `DeletionOffers.GuardIsAnEmptySlot` | OemPkg/BootMenu/BootMenu.c:1023-1026 | The length test that guards the deletion path holds exactly when a displayed slot of the edited list is empty. |
| `DeletionOffers.OffersAreTheMissing` | OemPkg/BootMenu/BootMenu.c:1023-1119 | For every edit without a boot-now flag: the options offered are the displayed ones missing from the new order if and only if a displayed slot is empty or none is missing. |
| `DeletionOffers.UniqueListOffersTheMissing` | OemPkg/BootMenu/BootMenu.c:1023-1119 | With distinct option numbers and a list that names displayed options only, each at most once, the options offered for deletion are exactly the displayed ones missing from the new order, and a dialog appears exactly when one is missing. |
| `DeletionOffers.FullListDropsSilently` | OemPkg/BootMenu/BootMenu.c:1023-1119 | Without an empty displayed slot there is no dialog and the new order is written as it is, whatever it misses. |
| `DeletionOffers.RepeatedEntryDropsAnOption` | OemPkg/BootMenu/BootMenu.c:1023-1119 | A list that names one of two options twice drops the other from BootOrder without a dialog. |
| `DeletionOffers.TailEntryDropsAnOption` | OemPkg/BootMenu/BootMenu.c:1016-1119 | So does a list that names an option of the undisplayed tail in a displayed slot; the tail option is then in BootOrder twice. |
| `BootOrderSafety.ConfirmedDeletionHappens` | OemPkg/BootMenu/BootMenu.c:1038-1090 | The unlocked option behind a confirmed deletion has no variable when the call returns. |
| `BootOrderSafety.FirstBootNow` | OemPkg/BootMenu/BootMenu.c:919-921 | A boot-now request found by the scan is that of the first displayed entry carrying the boot flag. |
| `BootOrderSafety.BootNowEffects` | OemPkg/BootMenu/BootMenu.c:971-1001 | A boot-now request never changes BootOrder or the set of options, and offers no deletion. Confirmed with BootNext not locked, its number becomes BootNext and MsBootNext is raised unless that is locked; with BootNext locked, or cancelled, BootNext and MsBootNext stay as they were. |
| `BootOrderSafety.OrderingLeavesOthers` | OemPkg/BootMenu/BootMenu.c:892-1124 | A call without a confirmed boot-now request changes no variable other than BootOrder and Boot####. |
| `BootOrderSafety.BootNowSavesEarlierCheckboxes` | OemPkg/BootMenu/BootMenu.c:917-1011 | With distinct numbers, variables in step and nothing locked: confirmed or cancelled, a boot-now request leaves in each option variable the last checkbox of the entries in front of the request, and the old state where none names it. |
| `BootOrderSafety.WrittenOrderDangles` | OemPkg/BootMenu/BootMenu.c:1023-1119 | A call that writes the order leaves no dangling entry exactly when every listed number has an option variable. |
| `UneditedOrder.UneditedDropsTheDangling` | OemPkg/BootMenu/BootMenu.c:335-1123 | Routing an unedited rebuilt list with no hidden or app option in range writes BootOrder without its dangling entries and changes nothing else. |
| `UneditedOrder.UneditedIsIdentity` | OemPkg/BootMenu/BootMenu.c:337-1123 | Routing an unedited rebuilt list with no hidden or app option in range is the identity: same order, options and store, no prompt. |
| `UneditedOrder.UneditedIsIdentityExactly` | OemPkg/BootMenu/BootMenu.c:337-1123 | Routing an unedited list is the identity if and only if no option in the displayed range is hidden or an app and BootOrder has no dangling entry. |
| `UneditedOrder.UneditedOffersTheHidden` | OemPkg/BootMenu/BootMenu.c:337-1040 | With distinct numbers, routing an unedited list offers for deletion exactly the hidden and app options of the displayed range. |
| `BootVariableLock.DeviceBootManager.BdsBootLockBootVariables` | OemPkg/Library/DeviceBootManagerLib/DeviceBootManagerLib.c:270-379 | The locking loop over BootOrder is the locking function of the model, and the flag that would stop a second run is never set. |
| `BootVariableLock.LockLocksEverything` | OemPkg/Library/DeviceBootManagerLib/DeviceBootManagerLib.c:302-378 | With the setting on and the registrations succeeding, BootOrder, BootNext and every Boot#### in BootOrder are locked, and BootNext is absent unless it was locked before. |
| `BootVariableLock.LocksExactly` | OemPkg/Library/DeviceBootManagerLib/DeviceBootManagerLib.c:281-378 | For every setting, store and script: with the setting on and the protocol found, exactly the registrations of BootOrder, BootNext and the Boot#### of BootOrder that succeed add a lock, and BootNext is deleted unless it was locked; otherwise nothing changes. |
| `BootVariableLock.LockingAgainChangesNothing` | OemPkg/Library/DeviceBootManagerLib/DeviceBootManagerLib.c:281-378 | On a fully locked store the routine changes nothing. |
| `BootVariableLock.LockingTwiceIsLockingOnce` | OemPkg/Library/DeviceBootManagerLib/DeviceBootManagerLib.c:281-378 | For every store and every script of registration results, a second run of the routine changes nothing, partial registrations included. |
| `BootSession.RunKeepsLocked` | OemPkg/Library/DeviceBootManagerLib/DeviceBootManagerLib.c:308-378 | Over every run of rebuilds, routed edits, lock calls and writes by other code, every locked variable keeps its value or its absence. |
| `BootSession.LockedConfigurationIsFixed` | OemPkg/Library/DeviceBootManagerLib/DeviceBootManagerLib.c:288-378 | After a successful lock, in every later run BootNext stays absent and BootOrder and every option it names stay as they were. |
| `BootSession.NoRunDangles` | OemPkg/BootMenu/BootMenu.c:892-1124 | Over every admissible run, whatever the dialogs answer, every BootOrder entry has its Boot#### variable and every loaded option exists. |
| `BootSession.PartialLockDangles` | OemPkg/Library/DeviceBootManagerLib/DeviceBootManagerLib.c:361-378 | With BootOrder locked, the confirmed deletion of an unlocked option that BootOrder names and the requested order lacks leaves BootOrder dangling. |
| `DanglingOrder.LockedOrderDangles` | OemPkg/BootMenu/BootMenu.c:1023-1119 | With BootOrder locked, from a state without dangling entries, a call leaves one if and only if the deletion path is taken and some displayed option that BootOrder names, whose variable is not locked and which the requested order lacks, is confirmed. |
| `DanglingOrder.UnlockedOrderDangles` | OemPkg/BootMenu/BootMenu.c:1023-1119 | With BootOrder not locked, from such a state, a call leaves a dangling entry if and only if it writes the order and a listed number has no option variable. |
| `DanglingOrder.RouteDanglesExactly` | OemPkg/BootMenu/BootMenu.c:892-1124 | The two together for every call, calls that stop early or meet a boot-now request included: it leaves no dangling entry if and only if the condition for its lock state fails, and then the next call starts from such a state again. |
| `DanglingOrder.RunNeverDangles` | OemPkg/BootMenu/BootMenu.c:892-1124 | Over every run of rebuilds, routed edits and lock calls with any registration results: no state has a dangling entry if and only if no edit of the run meets that condition in the state it is made in. |
| `DanglingOrder.PartialLockWitness` | OemPkg/BootMenu/BootMenu.c:1023-1119 | BootOrder [1] locked, Boot0001 not, an edited list with its one slot empty, and a confirmed dialog: BootOrder still names option 1, which is gone. |
| `PreBootChecks.MsPreBootChecks` | OemPkg/Library/DeviceBootManagerLib/DeviceBootManagerLib.c:151-263 | For every sensor script: at most R+1 rounds and R waits; the loop stops in the first round that may stop it; it returns to boot exactly when that round found power and temperature good (or no timer could be created). |
| `PreBootChecks.WaitsAreCoolings` | OemPkg/Library/DeviceBootManagerLib/DeviceBootManagerLib.c:224-237 | There is one cooling wait for each round, with retries left, that reads the system as hot and does not give up on power. |
| `ConfigPolicy.ApplyProfileOverrides` | OemPkg/OemConfigPolicyCreatorPei/OemConfigPolicyCreatorPei.c:37-85 | Success gives every knob its last override; the first override out of order puts every knob named before it back to its default; from the defaults a profile applies whole or leaves no trace. |
| `ConfigPolicy.LastOverrideIsLast` | OemPkg/OemConfigPolicyCreatorPei/OemConfigPolicyCreatorPei.c:52-79 | The override that counts for a knob is the last that names it, and there is none exactly when no override names it. |
| `ConfigPolicy.RollBack` | OemPkg/OemConfigPolicyCreatorPei/OemConfigPolicyCreatorPei.c:62-75 | The backward undo loop with its unsigned counter resets exactly the knobs named before the failing index, index 0 included. |
| `ConfigPolicy.SelectProfile` | OemPkg/OemConfigPolicyCreatorPei/OemConfigPolicyCreatorPei.c:173-198 | After the profile step the cache holds the profile values of the index reported, which is the generic one unless the selected profile exists and was applied whole. |
| `ConfigPolicy.ComputeNeededSize` | OemPkg/OemConfigPolicyCreatorPei/OemConfigPolicyCreatorPei.c:121-159 | The checked 32-bit pass succeeds exactly when the unbounded sum of the entry sizes exists and fits in 16 bits, and then is that sum. |
| `ConfigPolicy.EntryAdds` | OemPkg/OemConfigPolicyCreatorPei/OemConfigPolicyCreatorPei.c:121-146 | Each entry adds the size of its doubled name size and its value size, and has one exactly when the doubling stays in 32 bits and that size does not overflow. |
| `ConfigPolicy.EntryIsAt` | OemPkg/OemConfigPolicyCreatorPei/OemConfigPolicyCreatorPei.c:246-257 | The entries tile the policy: entry k fills exactly the bytes between the sizes of its predecessors and of itself. |
| `ConfigPolicy.ResolveKnob` | OemPkg/OemConfigPolicyCreatorPei/OemConfigPolicyCreatorPei.c:214-244 | A stored value that passes its validator, or has none, is in the cache afterwards; one that is rejected leaves the default; with none found or a size mismatch the cache keeps its value. |
| `ConfigPolicy.PublishedHasPrecedence` | OemPkg/OemConfigPolicyCreatorPei/OemConfigPolicyCreatorPei.c:173-244 | Precedence case by case: an accepted stored value, the default for a rejected one, otherwise the last override of the selected profile in force that names the knob, or the default. |
| `ConfigPolicy.Populate` | OemPkg/OemConfigPolicyCreatorPei/OemConfigPolicyCreatorPei.c:200-266 | Success exactly when no knob fails, and otherwise the error of the first failing knob; on success every knob has its value by precedence and the buffer is the serialised entries; every remaining-size argument suffices and the mismatch exit is not reachable. |
| `ConfigPolicy.CreateConfPolicy` | OemPkg/OemConfigPolicyCreatorPei/OemConfigPolicyCreatorPei.c:101-304 | Creation succeeds exactly when sizing, allocation, storage, conversion, the copy of the flavor name and the metadata publication do; otherwise the status is that of the first failing step, in the loop the storage or conversion error of the first failing knob. On success each cached value has the precedence above, and the metadata index and flavor name are those of the profile whose overrides were used, or the generic ones. |
| `BootPolicy.DecodeEncode` | OemPkg/Library/MsBootPolicyLib/MsBootPolicyLib.c:323 | Memory that starts with an encoded path is valid and is read as the nodes of that path. |
| `BootPolicy.EncodeDecode` | OemPkg/Library/MsBootPolicyLib/MsBootPolicyLib.c:323-329 | A valid path in memory is the encoding of the nodes read and has the computed size. |
| `BootPolicy.BytesOfNodes` | OemPkg/Library/MsBootPolicyLib/MsBootPolicyLib.c:323-386 | A valid path is read as type, sub-type, little-endian 16-bit length and data, node behind node, and ends with 7F FF 04 00. |
| `BootPolicy.BytePrefixIsNodePrefix` | OemPkg/Library/MsBootPolicyLib/MsBootPolicyLib.c:335-338 | The size test together with the byte comparison holds exactly when the SD card nodes are a proper prefix of the path nodes. |
| `BootPolicy.HasNoUsbNode` | OemPkg/Library/MsBootPolicyLib/MsBootPolicyLib.c:371-386 | The walk terminates and finds exactly the messaging (type 3) nodes of sub-type 5, 15 or 16: USB, USB-class and USB-WWID. |
| `BootPolicy.IsDevicePathBootable` | OemPkg/Library/MsBootPolicyLib/MsBootPolicyLib.c:290-397 | For every path the validity check accepts, whatever it asks beyond well-formedness: a path below the SD card is refused; any other is accepted unless USB boot is off and some node has type 3 and sub-type 5, 15 or 16; a missing path is bootable, a refused one is not. |
| `FrontPageMenu.RemoveMenuFromList` | OemPkg/FrontPage/FrontPage.c:820-851 | The in-place loop with its two flags is the removal function, 16-bit decrement included. |
| `FrontPageMenu.RemovalKeepsDense` | OemPkg/FrontPage/FrontPage.c:830-850 | Removal keeps a dense menu dense if and only if no remaining entry comes after two entries with the removed id. |
| `FrontPageMenu.RemovalFilters` | OemPkg/FrontPage/FrontPage.c:830-850 | On any table, a removal filters the menu list if and only if no other row with index 0 follows a match; such a row would wrap to the unused index and be lost. |
| `FrontPageMenu.RemovalIsIdempotent` | OemPkg/FrontPage/FrontPage.c:830-850 | Removing an entry twice is removing it once, for every table. |
| `FrontPageMenu.RemovalsCommute` | OemPkg/FrontPage/FrontPage.c:830-850 | On any table, the removals of two different ids commute if and only if, in front of every other row with a positive index, each still finds an entry that it would find alone (the other removal has not wrapped it away). |
| `FrontPageMenu.DenseRemovalsCommute` | OemPkg/FrontPage/FrontPage.c:830-850 | From a table that is dense in both menus, any two removals commute. |
| `FrontPageMenu.RepeatedIndexBreaksCommutation` | OemPkg/FrontPage/FrontPage.c:830-850 | A table with indices 0, 0, 1 on which two removals do not commute. |
| `FrontPageMenu.EveryRemovalSequence` | OemPkg/FrontPage/FrontPage.c:915-925 | From a dense table with distinct strings, every sequence of removals keeps the menu dense and filters it. |
| `FrontPageMenu.WithoutAllKeeps` | OemPkg/FrontPage/FrontPage.c:830-850 | Removing several ids one after the other keeps exactly the entries with none of them, in order. |
| `FrontPageMenu.FormMapIsDense` | OemPkg/FrontPage/FrontPage.c:118-128 | The shipped table has distinct strings and is dense in both menus. |
| `FrontPageMenu.FillMenu` | OemPkg/FrontPage/FrontPage.c:906-933 | On any table, each cell in range holds the string of the last row with its index, cells without a row stay empty, and so does the terminator. |
| `FrontPageMenu.FindForm` | OemPkg/FrontPage/FrontPage.c:722-747 | On any table, the search finds the first row with the selected index (0xFFFF finds a row that is in no menu), and refuses an index that no row has. |
| `FrontPageMenu.CreateTopMenu` | OemPkg/FrontPage/FrontPage.c:906-933 | From a dense table with distinct strings, each menu is the old one, in order, without the DFCI entry when that is not to be displayed and without the HWH entry when that is not; the cells are filled from the table that is left. |
| `FrontPageMenu.DisplayAgreesWithLookup` | OemPkg/FrontPage/FrontPage.c:722-933 | On any table, every cell shows the row that the search opens if and only if no index in range is used twice. |
| `FrontPageMenu.RemovalsKeepDisplayAndLookup` | OemPkg/FrontPage/FrontPage.c:722-933 | After every sequence of removals from a dense table with distinct strings, cell i shows entry i of the filtered menu, the search opens exactly the row shown, and cells behind the menu are empty and open nothing. |
| `FrontPageMenu.ShippedPage` | OemPkg/FrontPage/FrontPage.c:118-128 | The same for the shipped table, whichever of its entries are removed, in both modes. |
| `FrontPageMenu.ShippedMenus` | OemPkg/FrontPage/FrontPage.c:118-128 | The full menu of the shipped table is its six entries, the limited one information, DFCI and exit. |
| `BootManagerSettings.SettingsLibrary.InitializeNvVariable` | OemPkg/Library/MsBootManagerSettingsDxeLib/BootManagerSettings.c:66-206 | One start is the initialisation function, for every outcome of its delete and its write; only a failed creation is reported. |
| `BootManagerSettings.KindsOfState` | OemPkg/Library/MsBootManagerSettingsDxeLib/BootManagerSettings.c:89-162 | Which states are converted, migrated and created anew, told apart by size, attributes, signature and version. |
| `BootManagerSettings.ConversionResult` | OemPkg/Library/MsBootManagerSettingsDxeLib/BootManagerSettings.c:94-128 | A conversion keeps IPv6 and AltBoot, turns the lock off, takes USB boot and network start from the build and writes version 3; if its write fails, only its delete counts. |
| `BootManagerSettings.RepairResult` | OemPkg/Library/MsBootManagerSettingsDxeLib/BootManagerSettings.c:167-199 | A creation writes the five defaults of the build under version 0; if its write fails, only its delete counts. |
| `BootManagerSettings.MigrationResult` | OemPkg/Library/MsBootManagerSettingsDxeLib/BootManagerSettings.c:133-160 | A migration resets USB boot from version 1 and network start from versions 1 and 2 and writes version 3, every other field kept; if its write fails nothing changes. |
| `BootManagerSettings.SettingsLibrary.GetBootManagerSetting` | OemPkg/Library/MsBootManagerSettingsDxeLib/BootManagerSettings.c:259-303 | The stored value, or the default when the variable cannot be read. |
| `BootManagerSettings.FieldsOfIds` | OemPkg/Library/MsBootManagerSettingsDxeLib/BootManagerSettings.c:286-369 | Each setting id reads and writes its own byte of the record. |
| `BootManagerSettings.SettingsLibrary.SetBootManagerSetting` | OemPkg/Library/MsBootManagerSettingsDxeLib/BootManagerSettings.c:317-390 | Without a flags pointer or with an unknown id nothing changes; otherwise only the named setting does, and only when its value differs and the write succeeds; the already-set flag is raised exactly when it does not differ. |
| `BootManagerSettings.EveryStartIsWellFormed` | OemPkg/Library/MsBootManagerSettingsDxeLib/BootManagerSettings.c:89-199 | With successful writes every start state becomes a record with the right attributes and signature. |
| `BootManagerSettings.UpgradesKeepIPv6AndAltBoot` | OemPkg/Library/MsBootManagerSettingsDxeLib/BootManagerSettings.c:94-160 | Every upgrade path keeps the record with its IPv6 and AltBoot, for all outcomes of its writes, except exactly a conversion whose delete succeeds and whose write fails. |
| `BootManagerSettings.StartsReachFixedPoint` | OemPkg/Library/MsBootManagerSettingsDxeLib/BootManagerSettings.c:66-206 | Two starts reach the fixed point from any state; one start does exactly unless it created a record that the next start migrates. |
| `BootManagerSettings.StartKeepsSettings` | OemPkg/Library/MsBootManagerSettingsDxeLib/BootManagerSettings.c:133-158 | The next start keeps the settings of a well-formed record exactly when migration has nothing to overwrite. |
| `BootManagerSettings.FreshSettingSurvives` | OemPkg/Library/MsBootManagerSettingsDxeLib/BootManagerSettings.c:182-198 | A setting made on a freshly created record (Version 0) survives the next start exactly when version 1 is not number 0, or migration does not touch the setting, or the value is the default. |
| `BootManagerSettings.GetsWhatWasLastSet` | OemPkg/Library/MsBootManagerSettingsDxeLib/BootManagerSettings.c:259-464 | From a settled record, after any sequence of sets, resets to default and restarts, each value is the one last set. |
| `BootManagerSettings.LastSetIsLast` | OemPkg/Library/MsBootManagerSettingsDxeLib/BootManagerSettings.c:317-464 | The value last set is that of the last step which sets the id, or the one at the beginning. |
| `BootManagerSettings.ResetIsSet` | OemPkg/Library/MsBootManagerSettingsDxeLib/BootManagerSettings.c:430-464 | Resetting a setting is setting the default of the build. |
| `PasswordPolicy.SafeCopyPassword` | OemPkg/Library/PasswordPolicyLib/PasswordPolicyLib.c:328-352 | A missing or short buffer is refused and left alone; otherwise it holds the first 128 characters, always terminated. |
| `PasswordPolicy.IsPwStringValid` | OemPkg/Library/PasswordPolicyLib/PasswordPolicyLib.c:393-474 | Fail-fast and full mode give the same answer, 6 to 128 allowed characters; in full mode each failure bit is set exactly when its own test fails on the truncated copy. |
| `PasswordPolicy.AllowedMeans` | OemPkg/Library/PasswordPolicyLib/PasswordPolicyLib.c:35 | The allowed characters are the printable ASCII ones without the space, the slash and the backslash. |
| `PasswordPolicy.AcceptableMeans` | OemPkg/Library/PasswordPolicyLib/PasswordPolicyLib.c:393-474 | The policy in full: 6 to 128 characters, all of them allowed. |
| `PasswordPolicy.FailedTestsMean` | OemPkg/Library/PasswordPolicyLib/PasswordPolicyLib.c:407-466 | The bits: NULL, under 6 characters, over 128, and a refused character among the first 128. |
| `PasswordPolicy.ValidatePasswordHash` | OemPkg/Library/PasswordPolicyLib/PasswordPolicyLib.c:492-532 | Exactly delete markers of any length from 4 on and version-1 hashes of 74 bytes are accepted. |
| `PasswordPolicy.FormatBytes` | OemPkg/Library/PasswordPolicyLib/PasswordPolicyLib.c:505-524 | A delete marker starts with DE AD DE AD; a version-1 hash is 01 00, 32 bytes of salt and 40 bytes of key. |
| `PasswordPolicy.GeneratePasswordHash` | OemPkg/Library/PasswordPolicyLib/PasswordPolicyLib.c:556-625 | No password gives the delete marker; an acceptable one gives version, salt (old or fresh) and derived key; missing outputs, a bad password or an old hash of another version are invalid parameters, no memory is reported as such, and a failed salt or derivation as an abort. |
| `PasswordPolicy.BuildV1PasswordStore` | OemPkg/Library/PasswordPolicyLib/PasswordPolicyLib.c:222-308 | The store is version 1, the salt of the old hash or a fresh one, and the key derived from it; without a salt it is out of resources, and a failed derivation reports its own error. |
| `PasswordPolicy.Version1Parts` | OemPkg/Library/PasswordPolicyLib/PasswordPolicyLib.c:251-308 | The salt and key read back from a built hash are those it was built from. |
| `PasswordPolicy.Version1Bytes` | OemPkg/Library/PasswordPolicyLib/PasswordPolicyLib.c:251-302 | A built hash is 01 00, then the salt, then the key. |
| `PasswordPolicy.VersionsAreApart` | OemPkg/Library/PasswordPolicyLib/PasswordPolicyLib.c:511-524 | No byte string is both a version-1 hash and a delete marker. |
| `PasswordStore.Store.SetPassword` | OemPkg/Library/PasswordStoreLib/PasswordStoreLib.c:54-84 | An accepted hash replaces the stored one when the write succeeds; nothing else changes the store. |
| `PasswordStore.Store.IsPasswordSet` | OemPkg/Library/PasswordStoreLib/PasswordStoreLib.c:98-133 | For every content of which the bytes compared exist, true exactly when a read content is neither empty, four bytes long nor a delete marker; a missing or empty variable, and a failed read that reports size 0, becomes the delete marker. |
| `PasswordStore.SetMeans` | OemPkg/Library/PasswordStoreLib/PasswordStoreLib.c:113-126 | Set means stored, not empty, not of four bytes, and not starting with DE AD DE AD. |
| `PasswordStore.Store.AuthenticatePassword` | OemPkg/Library/PasswordStoreLib/PasswordStoreLib.c:155-229 | Without a password set everyone passes; otherwise a non-empty password passes exactly when the second read and the allocation succeed, the content starts with a version-1 hash, and the 128-character truncation is acceptable and derives the stored key under the stored salt. |
| `PasswordStore.MatchesMeans` | OemPkg/Library/PasswordStoreLib/PasswordStoreLib.c:155-229 | A password matches exactly when the content starts with 01 00 and has 74 bytes, the first 128 characters are at least 6 allowed ones, and the derivation under bytes 2 to 33 gives bytes 34 to 73. |
| `PasswordStore.AcceptedIsReadable` | OemPkg/Library/PasswordStoreLib/PasswordStoreLib.c:54-133 | Whatever SetPassword accepts can be read back by the queries, and counts as a set password exactly when it is of version 1. |
| `PasswordStore.StoredPasswordAuthenticates` | OemPkg/Library/PasswordStoreLib/PasswordStoreLib.c:54-229 | Generate, store and authenticate round trip; another password matches exactly when it derives the same key. |
| `SmbiosStrings.StringInArea` | OemPkg/Library/DfciDeviceIdSupportLib/DfciDeviceIdSupportLib.c:56-61 | Where the k-th string of an encoded set stands, and that a zero follows it exactly when it is the last. |
| `SmbiosStrings.EveryAreaIsASet` | OemPkg/Library/DfciDeviceIdSupportLib/DfciDeviceIdSupportLib.c:56-61 | Any bytes that hold two zeros in a row start with the area of a string set, so the walker is specified on all of them. |
| `SmbiosStrings.GetOptionalStringByIndex` | OemPkg/Library/DfciDeviceIdSupportLib/DfciDeviceIdSupportLib.c:42-81 | Index 1 to n gives that string of the set, index 0 an empty string; an empty first string, any other index and any index into an empty set give "Not Found"; bytes behind the double terminator make no difference. |

## Left out

- HII opcodes, forms, dialogs, bitmaps and the window manager: user interface; dialog answers are arbitrary inputs.
- Protocol location, event registration, library constructors and the LoadImage hook: plumbing.
- CRC32, PBKDF2, the random generator, the variable-list entry format and the variable policy engine: abstract, with the contracts above. The CRC is not assumed injective.
- Memory allocation failures, except the exits named in the contracts, and debug output.
- MsNVBootReasonLib, MsAltBootLib, MsSecureBootModeSettingLib, OemMfciLib, DeviceStatePei, MuUefiVersionLib, BootManagerPolicyDxe and the null libraries: short branch chains or wrappers that would only add easy members.
- The other configuration branches of the boot menu's RouteConfig and its ExtractConfig: they copy settings through.
- BootMenu.BootMenuDriver.RouteConfig: the status returned, the MsBootNext attributes and the failure of single writes other than by a lock are not modelled.
- FacsHardwareSignature.UpdateFacsHardwareSignature: sizes whose sum wraps a UINTN are excluded, and so are strides under 32 with which the last descriptor reaches past part 4; the code checks neither, and `WrapsExactlyWhenTooLarge` and `GuardIsTooWeak` say which they are.
- ConfigPolicy.CreateConfPolicy: the conversion of a knob name to Unicode is part of the serialisation function, and the publication of the policy by the module entry point is not modelled.
- PasswordPolicy.GeneratePasswordHash: with no password, the pool is assumed to have room for the delete marker, because the code stores through the pointer without stopping when it has none.
- PasswordStore.Store.IsPasswordSet: contents of one to three bytes, which the comparison reads past, are excluded.
- PasswordStore.Store.AuthenticatePassword: contents that start like a version-1 hash and are shorter than one, which the derivation reads past, are excluded. The attribute check of PasswordStoreInitializeLib is not part of this model.
- SmbiosStrings.GetOptionalStringByIndex: strings are returned as bytes, and allocation failures are not modelled.
- BootManagerSettings.Run: runs assume successful writes and a readable record; failing writes are covered for single calls only.
- PreBootChecks.MsPreBootChecks: the thermal failure counter drives no action in the code and is dropped; a shutdown is the end of the run.
