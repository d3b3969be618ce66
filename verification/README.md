# Verified model of the wallet messenger's protocols and amounts

The wallet messenger is a backend for encrypted group and one-to-one chats between wallet
holders. This project models the parts of it that carry state or arithmetic, and proves what they
keep over every run. Every database table is a sequence of rows whose ids are their positions; every
request is a transition from one table state to the next, and beside it stands a class method that
changes its fields step by step as the service does and is proved to end in that transition's state.

- **Group membership and its lock.** `GroupTables` holds members, lock notifications, wallets and
  the clock; `GroupChatService` the services; `GroupReplies` what each of their answers means to the
  caller; `GroupInvariants` and `GroupProtocol` the invariants over runs, the lifecycle and the freeze; `AddMembersRace` the interleavings inside one add-members
  call. The queue worker is an environment step: it may finish a notification, turn pending into
  joined, joined into out, or change a role.
- **Blocking and one-to-one rooms.** `BlockTables`, `UserBlockService`, `BlockReplies`,
  `BlockProtocol`: two block directions drive one room status, and that status gates four ways of
  sending.
- **Room keys and message encryption.** `TextCodecs` (Base64 as in section 4 of RFC 4648, UTF-8, and
  the UTF-16 code units that the source's strings are made of), `MessageCipher` (counter mode,
  section 6.5 of NIST SP 800-38A), `RoomKeys` on top of the group runs and the opening of one-to-one
  rooms. The block cipher and the key agreement are parameters.
- **Registration and encrypted lookup.** `SeedPhrases` (spacing of seed phrases), `SealedColumns`
  (a column with plain and encrypted secrets), `Registration`, `AuthService`, `RegistrationProofs`, and
  `RegistrationRefinement`, where a run with encryption is played beside the same run without.
  Encryption is a parameter that is deterministic and injective for each key and yields hexadecimal
  text.
- **Amounts.** `Strings`, `NatMath`, `Decimals` (exact decimals and their two notations),
  `AmountStrings` (expansion and truncation), `RawUnits`, `BalanceTexts` (what a balance text reads
  as), `BalanceBounds` (how far that is from the balance), `Funds` (the funds check), `Rounding`. The
  division inside `toFixed` is a parameter: any function to whole numbers that stays between the powers
  of ten around the quotient, is exact when that is whole, and never decreases within a magnitude.
  `Rounding` shows that rounding to the nearest is one.
- **Token lists and prices.** `TokenLists`, `PriceCache`.

`dafny verify dfyconfig.toml` checks everything.

## What turned out false, and exactly when it holds

- A lock request that names an address twice creates two live locks: exclusion is kept exactly for
  lists without repetitions (`LocksExclusiveIff`, `ApproveExclusiveIff` with `RepeatedApproval`,
  `RemoveExclusiveIff` with `RepeatedRemoval`), and so is uniqueness of active rows at creation
  (`CreateUniqueIff` with `RepeatedInvitation`) and independence of the interleaving (`IndependentIff`).
- A room created towards someone who already blocks the caller is deployed, not blocked: room status
  and blocks agree throughout a run exactly when no room is created that way (`BlockAgreementIff`,
  `CreationCanDisagree`).
- An empty private key is never checked, so wallets may share it, and only it (`EmptyKeyShared`,
  `SharedKeyIsEmpty`). A registration that passes its checks can leave a user without wallets exactly
  in the two cases of `PartialUserIff` (`EmptyPhraseLeavesPartialUser`).
- Words separated by anything but spaces do not normalise to the stored phrase (`NormalisesToJoinIff`,
  `TabSurvives`).
- A message with an unpaired surrogate does not come back as it was: the replacement character stands
  in its place (`EncryptThenDecrypt`, `LoneSurrogateIsLost`).
- `toFixed` preserves a number exactly when that is below ten to the 21 or has at most 21 significant
  digits (`ExpandPreservesIff`). Beyond, the balance text follows the rounded quotient: it shows more
  than the balance exactly when the quotient is rounded up, and drops over a millionth exactly in the
  cases of `DropsMillionth`, one of which is every balance above one of a token with more than 20
  decimals (`ShownBounds`, `SoundIff`, `SlackIff`). When the quotient comes out as ten to the 21 it is
  printed with an exponent, and the appended zeros lengthen the exponent: 10^22 - 1 units are shown as
  "1e+210" (`TopOverstated`). Double-precision Numbers round there in the same way (`TopNumber`). Only
  then can a larger balance be shown as less, and refused where the smaller one suffices
  (`ShownMonotoneIff`, `MorePaysIff`, `TopPaysTooMuch`).
- A seven-decimal amount padded for six decimals is too large: `setDecimals` is exact only up to the
  token's decimals, and not on numbers printed with an exponent (`SetDecimalsIff`,
  `PrintedPaddingIff`). Raw conversion round-trips exactly up to 20 fraction digits
  (`RawRoundTripIff`).
- The default token is appended for its symbol but dropped again when another row has its address
  (`NativeListedIff`, `NativeHidden`).

## Model

| member | source | states |
|---|---|---|
| GroupInvariants.ReachableStates | src/room-notification-tx/services/room-notification-tx.service.ts:12-71 | over every run of requests, worker actions and clock ticks from the empty tables: at most one live notification per (room, address), at most one active row per (room, address), at most 101 active members per room |
| GroupInvariants.RunKeepsInv | src/member-in-room/services/member-in-room.service.ts:494-992 | every run keeps the invariant, and rows only climb the lifecycle while notifications never leave a finished state |
| GroupInvariants.LocksKeepInv | src/shared/chat-helper/services/chat-helper.service.ts:92-183 | queueing a job whose distinct addresses were just checked to be free keeps lock exclusion |
| GroupInvariants.InsertUniqueIff | src/member-in-room/services/member-in-room.service.ts:627-663 | appending active rows of free addresses keeps rows unique if and only if the addresses differ |
| GroupInvariants.CreateKeepsInv | src/chat-room/services/chat-room.service.ts:1250-1328 | a new group has its owner and the registered invitees, one active row each, at most 101 in all |
| GroupInvariants.AddKeepsInv | src/member-in-room/services/member-in-room.service.ts:605-664 | an add-members call that inserts anything leaves at most 100 active members |
| GroupInvariants.RemoveKeepsInv | src/member-in-room/services/member-in-room.service.ts:666-768 | removal moves rows up the lifecycle and locks joined addresses once each |
| GroupInvariants.EditRoleKeepsInv | src/member-in-room/services/member-in-room.service.ts:927-992 | a role change locks the joined rows of the listed users, one lock per address even when a user is listed twice |
| GroupProtocol.AtMostThreeChanges | src/member-in-room/services/member-in-room.service.ts:779-816 | in every run a row changes status at most three times, fewer the higher it starts, and never after out or cancel |
| GroupProtocol.RequestRespectsLock | src/member-in-room/services/member-in-room.service.ts:645-730 | while an address has a live lock, no request changes its rows in the room or adds one, and none touches the lock |
| GroupProtocol.FrozenWhileHeld | src/room-notification-tx/services/room-notification-tx.service.ts:12-36 | over a whole run, retries of the job included, until the worker finishes that lock, acts on the rows, or ten minutes pass, the membership rows of the address stay as they were and it stays busy |
| GroupProtocol.BusyIff | src/room-notification-tx/services/room-notification-tx.service.ts:12-36 | an address is busy exactly while one of its jobs in the room is neither completed nor failed and is less than ten minutes old |
| GroupProtocol.FinishFrees | src/room-notification-tx/services/room-notification-tx.service.ts:23-34 | completing or failing the live job of an address frees that address in that room and no other |
| GroupProtocol.WindowFrees | src/room-notification-tx/services/room-notification-tx.service.ts:23-34 | after any run, ten minutes free every address |
| GroupProtocol.LocksExclusiveIff | src/shared/chat-helper/services/chat-helper.service.ts:145-178 | lock rows stay exclusive exactly when the queued addresses are distinct |
| GroupProtocol.ApproveExclusiveIff | src/member-in-room/services/member-in-room.service.ts:818-866 | an accepted approval keeps exclusion exactly when its address list has no repetition |
| GroupProtocol.RepeatedApproval | src/member-in-room/services/member-in-room.service.ts:818-866 | in a reached state an approval that repeats an address is accepted and breaks exclusion |
| GroupProtocol.RemoveExclusiveIff | src/member-in-room/services/member-in-room.service.ts:695-767 | an accepted removal keeps exclusion exactly when its joined addresses are not repeated |
| GroupProtocol.RepeatedRemoval | src/member-in-room/services/member-in-room.service.ts:695-767 | in a reached state a removal that repeats a joined address is accepted and breaks exclusion |
| GroupProtocol.CreateUniqueIff | src/chat-room/services/chat-room.service.ts:1315-1328 | creation keeps active rows unique exactly when the registered invitees are not repeated |
| GroupProtocol.RepeatedInvitation | src/chat-room/services/chat-room.service.ts:1315-1328 | a two-step run whose creation invites one address twice leaves two active rows for it |
| GroupProtocol.CapacityReached | src/chat-room/services/chat-room.service.ts:1250-1276 | the bound of 101 is attained: a full list of others plus the owner |
| GroupProtocol.AddStaysWithinLimit | src/member-in-room/services/member-in-room.service.ts:613-620 | after any run, an add that inserts leaves at most 100 active members |
| AddMembersRace.Call.EveryScheduleAgrees | src/member-in-room/services/member-in-room.service.ts:494-535 | for distinct registered addresses every interleaving of check, lookup and insert adds the same rows, and the call fails exactly when an address is unregistered |
| AddMembersRace.IndependentIff | src/member-in-room/services/member-in-room.service.ts:655-663 | the outcome is independent of the interleaving exactly when no registered address is repeated |
| AddMembersRace.RaceRefinesAddMembers | src/member-in-room/services/member-in-room.service.ts:605-664 | every completed interleaving has the rows and the verdict of the atomic add-members step |
| AddMembersRace.Call.LockstepInsertsAll | src/member-in-room/services/member-in-room.service.ts:505-535 | running all checks first inserts one row per registered entry, repeated or not |
| GroupChatService.GroupChat.CheckProcessingAddresses | src/room-notification-tx/services/room-notification-tx.service.ts:38-56 | the loop answers whether any listed address has a live lock in the room |
| GroupChatService.GroupChat.SendChatQueueData | src/shared/chat-helper/services/chat-helper.service.ts:81-203 | each job adds the lock rows of its own kind, in order, or nothing when the network check fails |
| GroupChatService.GroupChat.Join | src/chat-room/services/chat-room.service.ts:962-1036 | the join transition; refused exactly without an invited row or while the address of the oldest is busy; else that row alone becomes pending, and with an owner in the room one fresh lock for joining is queued for its address and no other address becomes busy; without an owner, or when the queue call fails, the notifications stay as they were; the invariant is kept |
| GroupChatService.GroupChat.Leave | src/chat-room/services/chat-room.service.ts:1038-1082 | the leave transition; refused exactly without a joined row or while the address of the oldest is busy; else exactly that address is locked for leaving, or nothing changes when the queue call fails; the invariant is kept |
| GroupChatService.GroupChat.Reject | src/chat-room/services/chat-room.service.ts:1470-1531 | the reject transition; refused exactly without an invited row or while the address of the oldest is busy; else that row alone is cancelled; the invariant is kept |
| GroupChatService.GroupChat.UpdateStatus | src/member-in-room/services/member-in-room.service.ts:779-816 | the status transition; refused for permission, a missing row or a busy address, each exactly in its case and in this order; else the oldest row of the old status alone gets the new one; the invariant is kept when the status climbs |
| GroupChatService.GroupChat.CancelInvite | src/member-in-room/services/member-in-room.service.ts:868-881 | the status change from invited to out, with the same refusals |
| GroupChatService.GroupChat.Approve | src/member-in-room/services/member-in-room.service.ts:818-866 | the approve transition; refused exactly for a caller without a joined row, for a plain member, or for a busy address; else exactly the listed addresses are locked for joining, or nothing changes when the queue call fails; the invariant is kept for lists without repetition |
| GroupChatService.GroupChat.Remove | src/member-in-room/services/member-in-room.service.ts:666-768 | the loop over members ends in the remove transition; refused without effect exactly for a caller who is no owner or admin or for a busy address; else exactly the listed invited and pending rows are out and exactly the listed joined addresses are locked for removal, if there are any; the invariant is kept for lists without repetition |
| GroupChatService.GroupChat.AddMemberList | src/member-in-room/services/member-in-room.service.ts:605-664 | for every list: each refusal of the checks exactly in its case, in their order and without effect; otherwise each registered address gets one invited row, it is accepted exactly when all are registered and none repeated, and the limit of 100 and the invariant hold; for lists without repetition it is the add transition |
| GroupReplies.ActiveCountIs | src/member-in-room/services/member-in-room.service.ts:613-620 | the rows counted against the limit are those of the room that are invited, pending or joined |
| GroupChatService.GroupChat.EditRole | src/member-in-room/services/member-in-room.service.ts:927-992 | the role transition; refused exactly for a caller who is not the joined owner, for differing roles or a busy address; naming the common role or the owner changes nothing; else exactly the listed joined members are locked for becoming an admin, or a plain member; the invariant is kept |
| GroupChatService.GroupChat.AddGroupChatRoom | src/chat-room/services/chat-room.service.ts:1230-1350 | the create transition; refused exactly for more than 100 addresses or for no other one; else the new room has the caller as joined owner and every registered other address as invited member, and no address is locked; the invariant is kept for lists without repetition |
| BlockProtocol.ReachableStates | src/user-block/services/user-block.service.ts:159-283 | over every run: one block row per (user, address), one room per pair and network, and a blocked room has an active block |
| BlockProtocol.BlockActivates | src/user-block/services/user-block.service.ts:202-242 | blocking turns on exactly one direction |
| BlockProtocol.UnblockDeactivates | src/user-block/services/user-block.service.ts:244-290 | unblocking turns off exactly one direction |
| BlockProtocol.SelectedRooms | src/user-block/services/user-block.service.ts:159-171 | the pair lookup selects exactly the caller's rooms with the holder of the address |
| BlockProtocol.BlockAgreementIff | src/user-block/services/user-block.service.ts:173-283 | status is blocked exactly while a direction is active, throughout a run, if and only if no room is created towards someone who blocks the caller |
| BlockProtocol.CreationAgreesIff | src/chat-room/services/chat-room.service.ts:694-798 | a single creation agrees exactly when the other side does not block the caller |
| BlockProtocol.CreationCanDisagree | src/chat-room/services/chat-room.service.ts:694-798 | after one side blocked the other, the blocked one opens a room that is deployed beside the active block |
| BlockProtocol.BeforeOpening | src/user-block/services/user-block.service.ts:202-242 | the state before that opening is reached by two registrations and one block |
| BlockProtocol.GateOverTraces | src/message/services/message.service.ts:820-853 | while some direction stays active, every send, resend, red packet and file message into the blocked room is refused |
| BlockProtocol.BlockClosesGate | src/user-block/services/user-block.service.ts:202-242 | after a successful block of a pair with a room, all sends into it are refused until an unblock leaves both directions inactive |
| BlockProtocol.LastUnblockReopens | src/user-block/services/user-block.service.ts:244-290 | unblocking the last active direction deploys the room again |
| BlockProtocol.EitherSideFindsTheRoom | src/chat-room/services/chat-room.service.ts:868-893 | over every run: the room that one call returns is the one that either side gets after any later run, except for the listed refusals |
| UserBlockService.ChatBackend.UpdatePeerRoomStatus | src/user-block/services/user-block.service.ts:173-200 | the loop sets the status of the pair's rooms and of no other |
| UserBlockService.ChatBackend.Block | src/user-block/services/user-block.service.ts:202-242 | the block transition; refused exactly for an unregistered address without a block row, and then without effect; otherwise the direction is active, no other changes, and exactly the rooms of the pair are blocked; the invariant is kept |
| UserBlockService.ChatBackend.Unblock | src/user-block/services/user-block.service.ts:244-290 | the unblock transition; the direction is inactive, no other changes, and the rooms of the pair are deployed exactly when the opposite direction is inactive; the invariant is kept |
| UserBlockService.ChatBackend.FindOrAddSingleChatRoom | src/chat-room/services/chat-room.service.ts:694-798 | the find-or-create transition; refused exactly while the caller blocks the other side, lacks a setting, or names an unregistered address without a room; else the oldest room of the pair on the network, or a new deployed one owned by the caller; the invariant is kept |
| UserBlockService.ChatBackend.Send | src/message/services/message.service.ts:836-941 | one message is saved exactly for a ready member of a deployed room and a valid type, and accepted exactly if it can be queued; every refusal is given in its case, in order, and saves nothing; the invariant is kept |
| UserBlockService.ChatBackend.Resend | src/message/services/message.service.ts:943-1036 | exactly the own failed message of a ready caller in a deployed room is in progress again, and accepted exactly if it can be queued; every refusal is given in its case and changes nothing; the invariant is kept |
| UserBlockService.ChatBackend.RedPacket | src/message/services/message.service.ts:1165-1313 | one message is saved exactly for a ready member of a deployed room, valid input and an address in the room, and accepted exactly if it can be queued; every refusal is given in its case and saves nothing |
| UserBlockService.ChatBackend.CreateFileMessage | src/message/services/message.service.ts:1341-1394 | one message is saved and accepted exactly for a ready member of a deployed room in a network in use; every refusal is given in its case and saves nothing |
| BlockReplies.CheckIff | src/message/services/message.service.ts:843-852 | the setup check passes exactly with a wallet, a network and auto-sign, and otherwise names the first that is missing |
| TextCodecs.Base64RoundTrip | src/shared/tools/diffe-hellman.tool.ts:22-33 | decoding the Base64 of any bytes gives the bytes |
| TextCodecs.GroupDenotes | src/shared/tools/diffe-hellman.tool.ts:22-33 | three bytes and their four symbols are digits of one number |
| TextCodecs.Base64Vectors | src/shared/tools/diffe-hellman.tool.ts:22-33 | the test vectors of section 10 of RFC 4648 |
| TextCodecs.Utf8RoundTrip | src/shared/tools/diffe-hellman.tool.ts:43-65 | decoding the UTF-8 of any sequence of Unicode characters gives the sequence |
| TextCodecs.CharDenotes | src/shared/tools/diffe-hellman.tool.ts:43-65 | the lead byte tells the length and the bits behind the markers are those of the character |
| TextCodecs.TextRoundTrip | src/shared/tools/diffe-hellman.tool.ts:43-65 | decoding the encoding of any UTF-16 text replaces its unpaired surrogates, and so gives the text exactly when there is none |
| TextCodecs.KnownPair | src/shared/tools/diffe-hellman.tool.ts:43-65 | a known surrogate pair is its character |
| MessageCipher.KeystreamTwice | src/shared/tools/diffe-hellman.tool.ts:35-68 | applying the counter-mode keystream twice restores the data, for any block cipher |
| MessageCipher.KeystreamBlocks | src/shared/tools/diffe-hellman.tool.ts:35-46 | block k of the keystream is the cipher's output, under the bytes of the shared key, on the k-th successor modulo 2^128 of the number that the vector spells |
| MessageCipher.BigEndianSpells | src/shared/tools/diffe-hellman.tool.ts:38-39 | the vector spells that number highest byte first |
| MessageCipher.CountersDiffer | src/shared/tools/diffe-hellman.tool.ts:35-46 | different blocks below 2^128 meet different counters |
| MessageCipher.KeystreamPrefix | src/shared/tools/diffe-hellman.tool.ts:35-46 | a longer keystream begins with a shorter one, which covers a last partial block |
| MessageCipher.KeystreamFlips | src/shared/tools/diffe-hellman.tool.ts:35-46 | a bit of the output differs from the data exactly where the keystream has a 1 |
| MessageCipher.EncryptIsCounterMode | src/shared/tools/diffe-hellman.tool.ts:35-46 | encryption fails exactly for a key or vector of the wrong length; what is sent is, in Base64, the UTF-8 of the text with exactly those bits flipped in which the keystream has a 1 |
| MessageCipher.EncryptThenDecrypt | src/shared/tools/diffe-hellman.tool.ts:35-68 | with a usable key and vector every text is encrypted and comes back with its unpaired surrogates replaced, hence unchanged if and only if it has none |
| MessageCipher.LoneSurrogateIsLost | src/shared/tools/diffe-hellman.tool.ts:35-68 | a text of one surrogate is decrypted to the replacement character |
| RoomKeys.AnyTwoMembersUnderstand | src/message/services/message.service.ts:766-818 | over every run of group requests and openings of one-to-one rooms, any two joined members resolve to the same key and vector and read what the other sends: unchanged exactly when it has no unpaired surrogate |
| RoomKeys.OnlyMembersEncrypt | src/room-key/services/room-key.service.ts:36-52 | encryption and decryption are refused exactly to users who have not joined the room |
| RoomKeys.NewRoomIsUnderstood | src/chat-room/services/chat-room.service.ts:728-798 | both sides of a one-to-one room just opened understand each other, its creator with the key row of the originator and the other side with that of the participant |
| RoomKeys.OpensIff | src/chat-room/services/chat-room.service.ts:694-740 | a one-to-one room is opened exactly by a ready caller who does not block the other side, towards a registered address, when the pair has none on the network |
| RoomKeys.AgreedSecretUsable | src/shared/tools/diffe-hellman.tool.ts:28-33 | the 24 agreed bytes as Base64 are exactly the 32 bytes AES-256 takes |
| RoomKeys.RoomKeyService.CreateRoomKeys | src/room-key/services/room-key.service.ts:54-86 | saves two rows, each side with its own pair, both with the key agreed between the originator's public and the participant's private key and with the drawn vector |
| SeedPhrases.NormaliseIdempotent | src/auth/services/auth.service.ts:114-116 | normalising a normalised phrase changes nothing |
| SeedPhrases.TrimmedIff | src/auth/services/auth.service.ts:114-116 | a single character is trimmed away exactly if it is one of the 25 blanks |
| SeedPhrases.NormalisesToJoinIff | src/auth/services/auth.service.ts:302-322 | a typing of words normalises to their single-space join exactly when its gaps are spaces only |
| SeedPhrases.TabSurvives | src/auth/services/auth.service.ts:302-322 | two words with a tab between them do not normalise to their join |
| SeedPhrases.SpacingRecovered | src/user-hdwallet/services/user-hdwallet.service.ts:24-31 | twelve words in any two spacings have one normal form, which splits back into the words and passes the check |
| SeedPhrases.SplitCounts | src/user-hdwallet/services/user-hdwallet.service.ts:24-31 | the word check counts spaces, whatever is between them: it passes exactly with 11 |
| SealedColumns.LookupIff | src/user-wallet/services/user-wallet.service.ts:106-141 | a lookup finds a row exactly when some row was made from the text or literally stores it |
| SealedColumns.LookupExact | src/user-hdwallet/services/user-hdwallet.service.ts:72-109 | it finds the one row made from the text when no earlier row stores the text |
| RegistrationRefinement.EncryptionIsTransparent | src/user-wallet/services/user-wallet.service.ts:106-141 | a run in which encryption is switched on at any point answers every registration and recovery as the same run without encryption, when no secret spells a ciphertext |
| RegistrationRefinement.RegisterAgrees | src/auth/services/auth.service.ts:97-183 | a registration replies alike on an encrypted backend and on its plain mirror, and leaves them mirrored |
| RegistrationRefinement.LookupAgrees | src/user-hdwallet/services/user-hdwallet.service.ts:72-109 | the two-way lookup over a partly encrypted column finds the very row that the plain lookup finds |
| RegistrationProofs.ReachableStates | src/auth/services/auth.service.ts:97-183 | over every run: no two wallets share a non-empty key or an address up to case, no two HD wallets a non-empty phrase, no two users a name; each user owns one of each row or none |
| RegistrationProofs.RegisterEffect | src/auth/services/auth.service.ts:97-183 | a completed registration appends one linked row to each table, made from its secrets; a refusal leaves nothing, or a bare user when the phrase is refused by the index |
| RegistrationProofs.RegisterIsAnswered | src/auth/services/auth.service.ts:97-183 | in any state of the invariant each refusal is given exactly in its case, in the order of the checks, differing passwords first, and otherwise the registration succeeds |
| RegistrationProofs.RegisterStores | src/user-wallet/services/user-wallet.service.ts:67-104 | a completed registration takes the first free drawn name, stores both secrets under the data key if there can be one and as they are otherwise, and puts every row in the network of the request |
| RegistrationProofs.RegisteredIsFound | src/user-wallet/services/user-wallet.service.ts:67-141 | whatever runs later, encryption switched on or not, both secrets are found and the user has exactly one wallet, HD wallet and setting |
| RegistrationProofs.SeedPhraseRecovers | src/auth/services/auth.service.ts:302-337 | twelve words registered in one spacing and typed later in another recover that very user |
| RegistrationProofs.PrivateKeyRecovers | src/auth/services/auth.service.ts:279-300 | a registered non-empty key recovers its user after any later run, whatever other rows spell |
| RegistrationProofs.PartialUserIff | src/user-hdwallet/services/user-hdwallet.service.ts:33-70 | a checked registration leaves a user without wallets exactly for a stored empty phrase or a phrase whose ciphertext is stored as plain text |
| RegistrationProofs.EmptyPhraseLeavesPartialUser | src/user-hdwallet/services/user-hdwallet.service.ts:33-70 | a run after which a checked registration with an empty phrase leaves a second user without a wallet |
| RegistrationProofs.SharedKeyIsEmpty | src/auth/services/auth.service.ts:127-136 | a completed registration reuses an existing private key only when it is empty |
| RegistrationProofs.EmptyKeyShared | src/auth/services/auth.service.ts:127-136 | a run in which two wallets share the empty key |
| AuthService.AuthBackend.GenerateOrGetDataKey | src/kms-data-key/services/kms-data-key.service.ts:108-127 | returns the first data key, creating it only if there is none and a master key exists, whether or not encryption is on |
| AuthService.AuthBackend.FindUserWalletByPrivateKey | src/user-wallet/services/user-wallet.service.ts:106-141 | finds what the lookup over the key column finds, changing at most the data keys |
| AuthService.AuthBackend.FindUserHdWalletBySeedPhrase | src/user-hdwallet/services/user-hdwallet.service.ts:72-109 | finds what the lookup over the phrase column finds, changing at most the data keys |
| AuthService.AuthBackend.GenerateUniqueUsername | src/auth/services/auth.service.ts:81-95 | the loop returns the first generated name no user has |
| AuthService.AuthBackend.CreateHdWallet | src/user-hdwallet/services/user-hdwallet.service.ts:33-70 | inserts the sealed phrase, or fails on a stored duplicate |
| AuthService.AuthBackend.CreateUserWallet | src/user-wallet/services/user-wallet.service.ts:67-104 | inserts the wallet with its sealed key |
| AuthService.AuthBackend.CreateDefaultSetting | src/user-setting/services/user-setting.service.ts:155-173 | inserts a setting exactly for a user without one |
| AuthService.AuthBackend.Register | src/auth/services/auth.service.ts:97-183 | the registration transition; refused for differing passwords exactly then and without effect; in any state of the invariant it keeps it, answers in the order of the checks, adds the linked rows with their secrets stored or leaves what the refusal leaves, and the registered key recovers the user at once |
| AuthService.AuthBackend.CheckInput | src/auth/services/auth.service.ts:103-147 | the checks before the first insertion, with the rewritten phrase and the drawn name |
| AuthService.AuthBackend.RecoverSeedPhrase | src/auth/services/auth.service.ts:302-337 | answers as the recovery function; invalid exactly for a wrong word count, not found exactly when no row was made from the phrase or stores it; the invariant is kept |
| AuthService.AuthBackend.RecoverPrivateKey | src/auth/services/auth.service.ts:279-300 | answers as the recovery function; not found exactly when no row was made from the key or stores it; the invariant is kept |
| Decimals.PlainDenotes | src/shared/blockchain-service/blockchain-service.service.ts:74-90 | plain notation denotes the number, at every fine enough precision |
| Decimals.ParsePrint | src/shared/tools/big-number.tool.ts:3-35 | every printed number, plain or scientific, reads back as itself |
| AmountStrings.ToFixed | src/shared/blockchain-service/blockchain-service.service.ts:74-90 | the method with overwritten variables computes the expansion, for every division |
| AmountStrings.KeptExpanded | src/shared/blockchain-service/blockchain-service.service.ts:74-90 | within range the expanded text denotes the number, however other quotients are rounded |
| AmountStrings.ExpandPreservesIff | src/shared/blockchain-service/blockchain-service.service.ts:74-90 | the expanded text reads as the number exactly when that has at most 21 digits before the point or at most 21 significant digits, however other quotients are rounded |
| AmountStrings.TruncationIsFloor | src/shared/blockchain-service/blockchain-service.service.ts:63-72 | `getFixed` gives the greatest multiple of ten to the -d not above the value |
| AmountStrings.TruncationIdempotent | src/shared/blockchain-service/blockchain-service.service.ts:63-72 | truncating twice changes nothing |
| AmountStrings.TruncatedIsFloor | src/shared/blockchain-service/blockchain-service.service.ts:105-134 | unless the quotient comes out as ten to the 21, expansion then truncation is the floor of the number that the expansion denotes, and truncating again changes nothing |
| AmountStrings.KeptTruncated | src/shared/blockchain-service/blockchain-service.service.ts:105-134 | within range it is the floor of the number itself |
| RawUnits.SetDecimals | src/shared/blockchain-service/blockchain-service.service.ts:159-167 | the padding loop gives the part before the first point and the part after it padded to the decimals, for any text |
| RawUnits.SetDecimalsIff | src/shared/blockchain-service/blockchain-service.service.ts:159-167 | the padded text denotes the amount times ten to the decimals exactly when the fraction fits or the amount is zero |
| RawUnits.PrintedPaddingIff | src/shared/blockchain-service/blockchain-service.service.ts:159-167 | for a number as it is printed the padded text denotes it times ten to the decimals exactly when it is zero, or is printed without an exponent and its fraction fits |
| RawUnits.RawRoundTripIff | src/transaction/services/transaction.service.ts:81-93 | for every text that reads as a decimal: to raw units and back, through printed texts, returns the amount exactly when it has at most 20 fraction digits |
| RawUnits.HalfUpNearest | src/transaction/services/transaction.service.ts:88-93 | the rounded quotient is the nearest multiple, a half going up |
| RawUnits.RoundHalfUpNearest | src/transaction/services/transaction.service.ts:88-93 | the quotient is rounded to that multiple of ten to the -20, and not at all up to 20 fraction digits |
| RawUnits.FormatPointAgrees | src/shared/blockchain-service/blockchain-service.service.ts:51-61 | the displayed millionths of the raw value are those `getFixed` keeps, below the amount by less than one millionth |
| BalanceTexts.BalanceShown | src/shared/blockchain-service/blockchain-service.service.ts:92-136 | the text of every raw balance, for every division, reads as a closed number of millionths |
| BalanceBounds.ShownBounds | src/shared/blockchain-service/blockchain-service.service.ts:92-136 | the text shows no more than the balance exactly when its quotient is not rounded up, and no less by over a millionth exactly when none is dropped |
| BalanceBounds.ShownMonotoneIff | src/shared/blockchain-service/blockchain-service.service.ts:92-136 | a larger balance shows at least as much, except exactly when the smaller one comes out with a lengthened exponent and the larger one is short of that power |
| Rounding.NearestIsDivision | src/shared/blockchain-service/blockchain-service.service.ts:74-90 | rounding the quotient to the nearest whole number is one of the divisions that the results quantify over |
| Rounding.OverflowOverstates | src/shared/blockchain-service/blockchain-service.service.ts:74-90 | a balance whose quotient comes out as ten to the 21 has the text "1e+21" with zeros appended, and is overstated by it |
| Rounding.TopOverstated | src/shared/blockchain-service/blockchain-service.service.ts:74-90 | where the quotient of 10^22 - 1 units comes out as 10^21 the text is "1e+210", and one unit more is shown as less |
| Rounding.NearestOverflows | src/shared/blockchain-service/blockchain-service.service.ts:74-90 | rounding to the nearest gives that quotient |
| Rounding.TopNumber | src/shared/blockchain-service/blockchain-service.service.ts:74-90 | 10^22 is the double-precision Number nearest to 10^22 - 1, and its tenth is a Number, too |
| Funds.IsEnoughBalance | src/shared/blockchain-service/blockchain-service.service.ts:362-481 | the fee is the estimated gas and half of it, rounded up, at the price in billionths of a coin, for each part; sufficient exactly when the coins cover it, or the amount with it and with 0.01, or, for another token, the coins cover it and the token text the amount; error flag and message for every branch and every division |
| Funds.FeeIsCharged | src/shared/blockchain-service/blockchain-service.service.ts:207-231 | the fee has that value |
| Funds.FeeUnique | src/shared/blockchain-service/blockchain-service.service.ts:207-231 | and no other value is such a fee |
| Funds.SufficientAnswers | src/shared/blockchain-service/blockchain-service.service.ts:430-453 | the condition under which the check answers yes is that one |
| Funds.SufficientIsTrue | src/shared/blockchain-service/blockchain-service.service.ts:430-453 | a sufficient verdict implies that the true balances cover amount and fee, unless the quotient of another token is rounded up |
| Funds.SoundIff | src/shared/blockchain-service/blockchain-service.service.ts:430-453 | for another token every sufficient verdict is true, whatever the amount, exactly when the fee is not covered anyway or the quotient is not rounded up |
| Funds.SlackIff | src/shared/blockchain-service/blockchain-service.service.ts:430-453 | with the fee covered one millionth of slack is always enough exactly when the balance text drops no more than that |
| Funds.VerdictMonotone | src/shared/blockchain-service/blockchain-service.service.ts:381-453 | more balance, a smaller amount, less gas, a lower price or fewer parts never turn sufficient into insufficient, unless the larger token balance is shown as less |
| Funds.MorePaysIff | src/shared/blockchain-service/blockchain-service.service.ts:381-453 | with the fee covered, whatever a token balance pays for a larger one pays for too, exactly unless that is shown as less |
| Rounding.TopPaysTooMuch | src/shared/blockchain-service/blockchain-service.service.ts:381-453 | where the quotient overflows, 10^22 - 1 units are accepted for more than they are, and one unit more is refused for the same amount |
| Funds.ReadingBounds | src/shared/blockchain-service/blockchain-service.service.ts:92-136 | the balance read is at most the true one exactly when its quotient is not rounded up, and at most a millionth short of it exactly when no more is dropped |
| Funds.FeeMonotone | src/shared/blockchain-service/blockchain-service.service.ts:207-231 | the fee is never negative and grows with gas, price and parts |
| Funds.PartsCover | src/user-wallet/services/user-wallet.service.ts:597-638 | the parts cover the message, one fewer would not, and an empty message costs one part |
| TokenLists.UniqueTokens | src/user-token/repositories/user-token.repository.ts:24-44 | keeps the rows with an address that are the first with it: exactly the non-empty addresses of the rows, none twice |
| TokenLists.DistinctItems | src/user-wallet/services/user-wallet.service.ts:305-333 | the loop with the seen-set keeps the first row of each address: exactly the addresses of the rows, none twice |
| TokenLists.NativeOnTop | src/user-wallet/services/user-wallet.service.ts:379-388 | two passes give the native symbol first, the rest after |
| TokenLists.BalanceItems | src/user-wallet/services/user-wallet.service.ts:305-388 | the loops in sequence, the default token included, give the balance list |
| TokenLists.BalanceListExact | src/user-wallet/services/user-wallet.service.ts:305-388 | the list is exactly the first row of each address, each once, native symbol first and otherwise in the order of the rows |
| TokenLists.NativeListedIff | src/user-wallet/services/user-wallet.service.ts:254-298 | the native symbol is listed exactly when a row has it or the default token's address is free |
| Strings.LowerLetters | src/user-wallet/services/user-wallet.service.ts:254-298 | lower case maps each capital letter to its small one and nothing else |
| TokenLists.NativeHidden | src/user-wallet/services/user-wallet.service.ts:254-298 | a stored token at the address of the default token hides the native symbol |
| TokenLists.OwnBalance | src/user-wallet/services/user-wallet.service.ts:335-339 | every entry is given the balance that was asked for it |
| PriceCache.PagesExact | src/jobs/services/coin-price.service.ts:147-166 | the pages hold every symbol once, in order and lower case, at most 250 each and all but the last full |
| PriceCache.CoinPriceService.CrawlData | src/jobs/services/coin-price.service.ts:147-166 | terminates, requests the pages in order up to the first failure, and gathers their quotes |
| PriceCache.CrawlMeans | src/jobs/services/coin-price.service.ts:147-166 | a crawl succeeds exactly if every page is answered, with the quotes of all pages in order, and stops early only at a page without data |
| PriceCache.CoinPriceService.GetTokenInfo | src/jobs/services/coin-price.service.ts:82-97 | asks the API only for a symbol not cached and stores its first quote |
| PriceCache.CoinPriceService.GetTokenInfoForGetBalance | src/jobs/services/coin-price.service.ts:120-145 | asks once for the missing symbols and stores the constant quote of 0.1 only along with fetched ones |
| PriceCache.MissingExact | src/jobs/services/coin-price.service.ts:120-130 | what is asked for are, in lower case, the listed symbols that are not cached |
| PriceCache.CoinPriceService.UpdateTokenListInfo | src/jobs/services/coin-price.service.ts:168-190 | given the enumeration of the cached keys, merges the crawled quotes or leaves the cache as it was on a failure, and loses no key |
| PriceCache.RunIsLatest | src/jobs/services/coin-price.service.ts:82-190 | after any run each symbol holds the last value ever brought in for it |
| PriceCache.KeysNeverShrink | src/jobs/services/coin-price.service.ts:82-190 | no run loses a symbol |
| PriceCache.HonestRunKeysMatch | src/jobs/services/coin-price.service.ts:82-190 | if the API quotes only what it is asked for, every entry is the quote of its own symbol |
| PriceCache.RefreshAsksOnce | src/jobs/services/coin-price.service.ts:168-190 | after any run with an API that answers what it is asked, a successful refresh has asked for exactly the keys of the cache, each once |
| PriceCache.RefreshAsksAll | src/jobs/services/coin-price.service.ts:168-190 | a successful refresh of any cache has asked for every key in lower case, in order, at most 250 at a time |

## Left out

- The queue worker's internals, which are not in the repository, and with them owner uniqueness and the effect of role changes.
- Concurrency between requests: one request is one step, except for the additions inside one add-members call; writes that the source does not await count as part of their request. AddMemberList runs the additions one after the other; their interleavings are the subject of `AddMembersRace`.
- Address normalisation: addresses are compared as given, and requests with repeated addresses are covered by the exact-condition lemmas instead of the invariant.
- `findOne` without an order is taken to return the oldest row.
- SendChatQueueData: its message rows, action rows and the queue payload are absent, only the lock rows are modelled; the shared-network check is a parameter.
- AddGroupChatRoom: the refusals for a missing wallet, network or auto-sign setting are absent, and the caller's address is a parameter; names and avatars are absent.
- Send: whether the type is one of the known message types is one flag.
- Resend: the branch for files that are not uploaded yet is part of one flag.
- RedPacket: the checks of wallet, network, address format and token are one flag, its unawaited network check is not modelled, and the transaction row is absent.
- Message, action and notification rows, names, avatars and user contacts of the other group services; the status that `updateChatRoom` takes from its caller.
- The block cipher, the elliptic-curve agreement, the key service's cipher, password hashing and the RSA wrapping of answers: parameters or absent.
- Malformed Base64 and UTF-8, for which only a total decoder is given; nothing rests on its result.
- GenerateUniqueUsername: randomness is a given finite sequence of names; where none of them is free it reports that, where the source would go on drawing.
- Register: has that refusal for exhausted names, which the source does not have.
- Disabling a data key or switching encryption off again: no code of the repository does either.
- The database's collation: text columns compare by equality and `lower` folds ASCII letters.
- Floating-point rounding in `formatPoint`, `roundNum`, the fee, the shift of small numbers in `toFixed` and its whole quotients: exact decimals, naturals and reals instead; negative amounts are not modelled.
- Fiat values in the balance list (`usdBalance`, `usdRate`), token ABIs and logos.
- The order in which the cached keys are enumerated: any order is allowed. Overlapping cache updates: calls are one after the other.
- Controllers, DTO validation, migrations, the long display queries.
