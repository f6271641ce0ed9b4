# Cossacks game server: a verified model

The server keeps a lobby of game rooms, announces them to polling clients, accumulates
per-player game statistics, and talks a small binary protocol. This project models those
four parts in Dafny and proves what they keep over whole runs, what they invert, and where
they do not do what one would expect.

- **Lobby** (`LobbyModel`, `LobbyInvariants`, `SumIndex`, `HandlerExact`, `OrderlyRuns`,
  `IndexMembers`, `TagChange`, `GuestStart`, `Requests`, `RoomRows`, `Domain`, `Store`).
  `LobbyModel` describes the store as a value and every client request, disconnect and timer
  expiry as one atomic step. `Store` is the imperative form: a class whose methods update
  room objects and indexes in place, each proved to do to the store's abstract value exactly
  what the value-level step does. A room reference is represented by the room's unique id,
  so that rooms no longer listed but still referred to stay in the picture.
- **Control sums and polling** (`ControlSum`, `AdlerLaws`, `Decimal`, `Gettbl`, `TableNames`,
  `TableRows`, `GhostRooms`). The tag of a row is its Adler-32 (section 8.2 of RFC 1950); GETTBL exchanges tags for rows.
- **Statistics** (`StatModel`, `StatWindows`, `StatCounters`, `StatReports`, `StatReadings`,
  `StatService`) and the start payload (`StartedUsers`). All 32-bit arithmetic is modelled with its wrap-around.
- **Wire formats** (`CommandText`, `CommandBinary`, `CommandInputs`, `Framing`, `OpenParams`,
  `WireFormat`), with the reader's exact behaviour at the end of its input.

Eight things a reader of the code would not expect are stated as theorems, each with the exact
condition and a concrete input or run:

- A room can stay in the control-sum index after it has gone from the list, e.g. when a host
  joins his own waiting room (`GhostRooms.RejoinRun`). `LeaveExactIff`, `JoinExactIff`,
  `StartExactIff` and `RegisterExactIff` say exactly when an operation keeps the index equal
  to the listed rooms, `HandlerExact.StepExactIff` and `RunExactIff` exactly when a request
  and a whole run do. A client that was up to date goes on showing such a room through any
  number of polls (`GhostRooms.RejoinNeverSeen`; `GhostForever` is a run that gets there),
  and drops it at its first poll after the last member has left
  (`GhostRooms.GhostsHaveMembers`, from `IndexMembers.RunKeepsInhabited`; `GhostEnds`).
- A table reply does not mark where a row ends, and rows have nine or ten fields by protocol
  version. The number of fields is a multiple of the number of rows exactly when all rows
  sent have one layout (`TableRows.FieldsDivideIff`), and only then can cutting them evenly
  give the rows back (`ReplyConvergesIff`; `MixedRun` is a run that gets both layouts).
- A statistics window is missing samples until the clock reaches twice its length: it holds
  all it covers exactly when none of them came before the clock reached its length
  (`StatReports.WindowCompleteIff`; `LateLossExample`).
- The casualty tally falls by 2^32 at every drop of the population reading, and is right
  exactly when there was none (`StatCounters.CasualtiesRightIff`, `DropExample`).
- A command set whose last argument is empty cannot be read back
  (`CommandBinary.BinaryRoundTripIff`, `Framing.ReadFrameIff`).
- An encoding cut short inside its last argument still decodes, to zero-padded bytes
  (`CommandInputs.DecodesIff` says exactly which inputs decode to a given set).
- Reading a frame panics, instead of giving an error, exactly when the size field of a
  complete header is below 12 (`Framing.PanicsIff`; twelve zero bytes in `ZeroHeaderPanics`;
  `ReadsPanicIff` for a sequence of reads).
- The documentation of the start command (`internal/app/gsc/commands/README.md:43`) and of
  `MarkStarted` speaks of the host; the code lets any member start a room. Only the host can
  start it exactly when he is alone in it (`GuestStart.HostOnlyStartIff`; `GuestStartRun` is
  a run in which a guest starts the host's room).

## Model

| member | source | states |
|---|---|---|
| LobbyInvariants.RunKeepsInv | internal/app/lobby/leave.go:49-88 | Every run of enter, register, join, leave, start, disconnect and timer steps keeps: counts equal memberships, players are the members (a superset once started), tags match rows, by-sum keys match tags, by-host keys are registered players, connections hold distinct registered ids |
| LobbyInvariants.ReachableRoom | internal/app/lobby/join.go:35-47 | After any run, for any room, deleted or not: count = number of by-host entries, players = members before the start, capacity respected, tag = control sum of the row, players column reads count/max in both layouts, a listed room has a member and its host until it starts |
| LobbyInvariants.StepKeepsInv | internal/app/gsc/controller_room.go:28-40 | Each single step keeps the whole invariant |
| LobbyInvariants.LeaveKeepsInv | internal/app/lobby/leave.go:30-89 | Leaving keeps the invariant, for started and waiting rooms, listed or not |
| LobbyInvariants.JoinGameKeepsInv | internal/app/gsc/routes/join_game.go:79-114 | Guards, leave, then join keep the invariant although the guards are evaluated before the leave |
| LobbyInvariants.RegNewRoomKeepsInv | internal/app/gsc/routes/reg_new_room.go:83-125 | Leave, then register keep the invariant |
| LobbyInvariants.MarkStartedKeepsInv | internal/app/lobby/start.go:38-63 | Starting keeps the invariant; the row edit leaves the players column alone |
| LobbyInvariants.EnterLobbyKeepsInv | internal/app/gsc/routes/try_enter.go:115-143 | Entering gives a fresh id or, on re-entry, leaves the room and keeps the id |
| LobbyInvariants.DisconnectKeepsInv | internal/app/gsc/controller_room.go:28-40 | A disconnect leaves the room and unregisters the player |
| SumIndex.LeaveExactIff | internal/app/lobby/leave.go:68-86 | From an exact by-sum index, a leave keeps it exact if and only if the new tag is free and the room is listed, or is deleted by the leave with its old tag free |
| SumIndex.JoinExactIff | internal/app/lobby/join.go:43-47 | A join keeps the index exact if and only if the room is listed and the new tag is free |
| SumIndex.StartExactIff | internal/app/lobby/start.go:38-63 | A start keeps the index exact if and only if the room is listed and the new tag is free |
| SumIndex.RegisterExactIff | internal/app/lobby/create.go:106-145 | Registering keeps the index exact if and only if the new room's tag is free |
| HandlerExact.JoinGameExactIff | internal/app/gsc/routes/join_game.go:79-114 | A whole join request, leave included, keeps the index exact if and only if the join would when the player is in no room, both operations would when he rejoins his room, and otherwise no third room has the tag of either room after or, if the old room is unlisted, before; and the entry the leave wrote for the old room, if any, survives the refiling exactly when that room is still listed |
| HandlerExact.RegNewRoomExactIff | internal/app/gsc/routes/reg_new_room.go:83-125 | The same for a registration that first leaves a room |
| HandlerExact.StepExactIff | internal/app/lobby/leave.go:68-88 | In every reachable state with an exact index, each kind of step keeps it exact if and only if the condition for that step holds |
| HandlerExact.RunExactIff | internal/app/lobby/leave.go:68-88 | The index is exact all through a run if and only if every step met its condition |
| OrderlyRuns.OrderlyRunsStayExact | internal/app/lobby/leave.go:72-88 | If no host abandons guests in a waiting room, no host joins his own waiting room and tags do not collide, then after every step the index is exact and every member's room is listed |
| OrderlyRuns.TargetSurvives | internal/app/gsc/routes/join_game.go:79-114 | The room a player joins survives the leave that comes before, unless he is its host |
| SumIndex.HostRejoinLeavesGhost | internal/app/gsc/routes/join_game.go:79-114 | In every reachable state, a host who joins his own waiting room ends up filed in a deleted room that stays in the by-sum index |
| GhostRooms.RejoinRun | internal/app/gsc/routes/join_game.go:110-114 | Enter, register, join: no room is listed and the index is not exact |
| GhostRooms.RejoinKeepsRecords | internal/app/gsc/routes/join_game.go:79-114 | A host who joins his own waiting room leaves every record and membership as it was; the room goes from the list and the index loses only what it had under the tag carried in between |
| GhostRooms.RejoinUnlistsIff | internal/app/gsc/routes/join_game.go:79-114 | The listing is all that changes if and only if no other listed room carries the tag in between |
| GhostRooms.RejoinUnseen | internal/app/gsc/commands/gettbl.go:77-93 | Then a client that was up to date gets an empty reply although it holds the tag of a room no longer visible |
| GhostRooms.RejoinNeverSeen | internal/app/gsc/commands/gettbl.go:77-93 | No number of polls in that state changes what it shows |
| GhostRooms.KeptThroughPollsIff | internal/app/gsc/commands/gettbl.go:77-82 | Through any series of polls, each in any state that satisfies the lobby invariant, a client keeps a tag if and only if at each of them the index leads from it to a room that is not hidden, listed or not |
| GhostRooms.GhostForever | internal/app/gsc/routes/join_game.go:110-114 | Enter, register, join: nothing is listed, and a client up to date before the join still shows the room after any number of polls |
| IndexMembers.RunKeepsInhabited | internal/app/lobby/leave.go:49-88 | In every run, each room the by-sum index leads to, listed or not, has a member |
| GhostRooms.GhostsHaveMembers | internal/app/gsc/commands/gettbl.go:77-93 | After any run and any poll by any client, every tag it shows is the tag of a room that has a member, so a deleted room goes at the first poll after its last member has left |
| GhostRooms.GhostEnds | internal/app/gsc/commands/gettbl.go:77-82 | Enter, register, join, leave: one poll empties every client's view |
| GuestStart.HostOnlyStartIff | internal/app/gsc/commands/start.go:89-111 | In every reachable state only the host of a listed waiting room can start it if and only if he is its one member |
| GuestStart.StartedByMembers | internal/app/gsc/commands/start.go:89-111 | A waiting room is started by its members and by nobody else |
| GuestStart.GuestStartRun | internal/app/gsc/commands/start.go:93-111 | Enter, register, enter, join: then the guest's start command starts the host's room |
| Requests.JoinDoes | internal/app/gsc/routes/join_game.go:50-114 | In every reachable state, a join request puts the player into the room, out of any other and moves nobody else, if the connection has a player, the nick is not blank, and the room is listed, waiting, below its capacity and has no password or the one sent; otherwise it changes nothing |
| Requests.NewcomerIff | internal/app/gsc/routes/join_game.go:50-114 | So a player is a newcomer of a room if and only if all that holds and he was not in it |
| Requests.JoinedRoom | internal/app/lobby/join.go:35-47 | A player who was in no room is added to the room's players and count; nothing else of it changes but its row and tag |
| Requests.WrongPasswordRun | internal/app/gsc/routes/join_game.go:104-108 | A guest sends the wrong password: the server is exactly as it was |
| Requests.LeaveDoes | internal/app/lobby/leave.go:30-89 | In every reachable state a leave takes out the player and nobody else; his room stays listed if and only if it was, somebody remains, and it has started or he was not its host; no other room changes |
| Requests.LeftRoom | internal/app/lobby/leave.go:54-70 | The room a player leaves counts one less; a waiting one forgets him, a started one keeps his name and its row |
| Requests.LeaveStepsDo | internal/app/gsc/commands/leave.go:54-70 | A leave request and an expired timer do that for the connection's player and for the timer's |
| Requests.RegisterDoes | internal/app/gsc/routes/reg_new_room.go:46-125 | A registration with a player, a nick and a good title makes him host and only member of a new, waiting, listed room under the next id, with the password and the places asked for; any other changes nothing |
| Requests.PlacesOf | internal/app/gsc/routes/reg_new_room.go:88-91 | The places are two more than asked for, in 64-bit arithmetic, or eight |
| Requests.HostlessRoom | internal/app/lobby/create.go:108-111 | A room registered without a player has host 0 and is filed under 0 |
| Requests.StartDoes | internal/app/lobby/start.go:33-64 | A member's start marks his room and records how many are in it; it moves nobody |
| Requests.EnterDoes | internal/app/gsc/routes/try_enter.go:115-143 | A new connection gets the next player id, a known one keeps its id and leaves its room |
| Requests.DisconnectDoes | internal/app/gsc/controller_room.go:28-40 | The session and the player go, his room as by a leave |
| RoomRows.RegisteredRow | internal/app/lobby/create.go:101-148 | A registration lists a row that reads: id, lock mark exactly with a password, title, nick, kind of game under versions 3, 8 and 10 only, level in words, places, version, address, and the complement of the id |
| RoomRows.PlacesAt | internal/app/lobby/leave.go:93-108 | The places stand in the fourth column from the end, or the last of a shorter row, and no other column is touched |
| RoomRows.StepRowsStay | internal/app/lobby/join.go:35-47 | In every reachable state no step changes anything else of any room's row than the mark, the places and the first byte of the last column, nor the mark of a room that goes on waiting |
| RoomRows.RowTells | internal/app/lobby/start.go:51-62 | In every run, for every room there ever was, the row reads its id, its lock and places while it waits, and the start marks once it has started |
| TagChange.JoinChangesTag | internal/app/lobby/join.go:41-45 | In every reachable state a join changes the room's tag, whatever the number of digits of the count |
| TagChange.LeaveChangesTag | internal/app/lobby/leave.go:62-70 | A leave changes the tag if and only if the room has not started |
| TagChange.StartChangesTag | internal/app/lobby/start.go:51-62 | A start changes the tag if and only if it is the room's first |
| Decimal.BumpShape | internal/app/lobby/leave.go:105 | Incrementing a decimal numeral moves its byte sum by an amount that is 1 or 4 modulo 9 and bounded by nine per digit |
| Decimal.ItoaReads | internal/app/lobby/leave.go:105 | A printed number reads back, a negative one behind its minus sign |
| Decimal.DigitsShape | internal/app/lobby/leave.go:105 | A numeral has only the digits 0-9 and no leading zero |
| Decimal.HexReads | internal/app/lobby/create.go:122 | A printed hexadecimal number reads back |
| Decimal.HexShape | internal/app/lobby/create.go:122 | It has only the digits 0-9 and A-F and no leading zero |
| ControlSum.Compute | internal/app/lobby/leave.go:114-140 | The chunked loop computes Adler-32 of the concatenated columns; every 32-bit addition is in range |
| AdlerLaws.FlattenAt | internal/app/lobby/leave.go:120 | In the text that is summed, column i lies right behind the columns before it |
| AdlerLaws.FlattenLength | internal/app/lobby/leave.go:120 | The text is as long as all columns together, so there is nothing else in it |
| AdlerLaws.AdlerIs | internal/app/lobby/leave.go:121-139 | The high half of the tag is the length plus every byte times its distance from the end, the low half 1 plus every byte, both modulo 65521 |
| AdlerLaws.AdlerOfAbc | internal/app/lobby/leave.go:114-140 | The columns "a" and "bc" have the tag 0x024d0127 |
| ControlSum.ChunkNeverOverflowsIff | internal/adapter/rooms/state.go:361-387 | A chunk of n bytes stays within 32 bits for all bytes and all reduced accumulators if and only if n is at most 5552; beyond that n bytes of 255 overflow |
| Store.Store.Leave | internal/app/lobby/leave.go:30-89 | The in-place leave equals the value-level one on rooms, indexes and result |
| Store.Store.Join | internal/app/lobby/join.go:30-48 | The in-place join equals the value-level one, including the nil player |
| Store.Store.RegisterNew | internal/app/lobby/create.go:101-148 | Row layout, room object and three indexes equal the value-level registration |
| Store.Store.MarkStarted | internal/app/lobby/start.go:33-64 | The in-place row edit and re-indexing equal the value-level start |
| Store.Store.RegNewRoom | internal/app/gsc/routes/reg_new_room.go:46-125 | Guards, leave and register as one step of the model |
| Store.Store.JoinGame | internal/app/gsc/routes/join_game.go:50-114 | Accepted exactly under the model's guards, and then equals the model's step |
| Store.Store.Start | internal/app/gsc/commands/start.go:89-119 | Starts the caller's room; the host's arguments rebuild the started users and set the nation, team and colour of the players they name, another member's start leaves users and marks as they were |
| Store.Store.Enter | internal/app/gsc/routes/try_enter.go:117-140 | Id allocation, leave on re-entry and upsert equal the model's step |
| Store.Store.Remove | internal/app/gsc/controller_room.go:34-40 | Leave and delete equal the model's step |
| Gettbl.Handle | internal/app/gsc/commands/gettbl.go:51-108 | The reply holds the packed deletions in request order and the rows of exactly the visible rooms not held, each once |
| TableNames.ReplyIs | internal/app/gsc/commands/gettbl.go:74-108 | The reply command by command: names, table name, count, fields; a row is sent if and only if the room is listed, not hidden as started, its table was asked for by name, and its tag was not sent |
| TableNames.DeletionOne | internal/app/gsc/commands/gettbl.go:77-82 | A tag is deleted if and only if it leads to no room or to a started one that is hidden |
| TableNames.DeletionsConcat | internal/app/gsc/commands/gettbl.go:77-82 | Tags are decided one by one and stay in order |
| TableNames.TrimNulIs | internal/app/gsc/commands/gettbl.go:65 | The table name is what lies between the NUL bytes at either end of the argument |
| TableNames.TrimNulOf | internal/app/gsc/commands/gettbl.go:65 | Any text that neither begins nor ends with NUL is the name when NULs surround it |
| TableNames.AcceptedIff | internal/app/gsc/commands/gettbl.go:65-93 | A name is accepted at a version if and only if it is "ROOMS_V" and the version, in any letter case, an s long (U+017F) or short, with any NULs around |
| TableNames.OneVersion | internal/app/gsc/commands/gettbl.go:91-93 | No argument is accepted at two versions |
| TableNames.UsualName | internal/app/gsc/commands/gettbl.go:65-93 | "ROOMS_V2" with a NUL behind it is the table of version 2 |
| TableNames.PollByName | internal/app/gsc/commands/gettbl.go:51-108 | After any orderly run the reply to whoever asks for the table by its name brings the visible tags, and is empty if and only if he had them |
| TableNames.OtherNameSendsNoRow | internal/app/gsc/commands/gettbl.go:91-93 | Whoever asks under another version's name is sent no row |
| TableRows.FieldsDivideIff | internal/app/gsc/commands/gettbl.go:97-100 | The number of fields in the table is a multiple of the number of rows if and only if all rows have one layout; otherwise it lies strictly between 9 and 10 a row |
| TableRows.TableReadIff | internal/app/gsc/commands/gettbl.go:97-100 | Cutting the fields evenly by the count in the reply gives back exactly the rows sent if they have one layout, and is impossible if not |
| TableRows.ReplyConvergesIff | internal/app/gsc/commands/gettbl.go:51-108 | When the index answers right, a client that applies the two commands of the reply, and nothing else, has exactly the visible rooms' tags if the rows sent have one layout, and cannot read the table if not |
| TableRows.MixedRun | internal/app/lobby/create.go:113-122 | Two players enter and create a room of each layout: a client that holds nothing cannot read the reply to its poll |
| Gettbl.ConvergenceIff | internal/app/gsc/commands/gettbl.go:77-93 | Every poll by every client converges if and only if the index answers right for every tag |
| Gettbl.ReplyQuietIff | internal/app/gsc/commands/gettbl.go:74-108 | When the index answers right, the reply carries no deletion and no row if and only if the client holds exactly the visible tags |
| TableRows.PollAfterRun | internal/app/gsc/commands/gettbl.go:51-108 | After any orderly run the reply to any poll of the current table, read as sent, gives the client the visible tags if the rows sent have one layout, and is empty if and only if the client had exactly those tags |
| TableRows.JoinIsAnnouncedIff | internal/app/lobby/join.go:35-47 | To a client that was up to date before a join, the reply deletes the room's old tag, and carries its new row if and only if no other visible room has the new tag |
| Gettbl.UnpackPack | internal/app/gsc/commands/gettbl.go:119-141 | Unpacking undoes packing, ignoring up to three stray bytes |
| Gettbl.PackUnpack | internal/app/gsc/commands/gettbl.go:119-141 | Packing restores every complete group of four bytes |
| StatModel.DecodeRecovers | internal/app/match/service.go:35-57 | Decoding recovers every field of a laid-out payload, whatever follows it |
| StatReadings.DecodedBytes | internal/app/match/service.go:35-57 | Which bytes of a payload each reading is; a payload is refused if and only if it is shorter than 42 bytes |
| StatReadings.StoredIsLast | internal/app/match/update_stat.go:28-62 | In every run the stored sample holds the last accepted readings and the clock its time |
| StatReadings.AcceptedIff | internal/app/match/update_stat.go:50-52 | A sample is accepted if and only if it is not older than the last accepted one |
| StatWindows.RunKeepsWindows | internal/app/match/update_stat.go:134-148 | In every run each window holds exactly the points accepted at a time in [max(W, T-W), T], with their sum |
| StatWindows.EarlyWindowsEmpty | internal/app/match/update_stat.go:144-152 | While the clock is below the window length the window is empty and its sum 0 |
| StatReports.WindowCompleteIff | internal/app/match/update_stat.go:144-152 | In every run a window holds every sample accepted in [T-W, T] if and only if none was accepted at a time in [max(0, T-W), W) |
| StatReports.LateLossExample | internal/app/match/update_stat.go:144-152 | A wood sample at time 1000 is gone at time 1500 |
| StatWindows.WindowSumTelescopes | internal/app/match/update_stat.go:136-148 | A window's sum is the current value minus the value just before its oldest sample, and fits 33 bits |
| StatWindows.DenominatorPositive | internal/app/match/update_stat.go:154-161 | The divisor of a rate does not wrap and is at least 1 |
| StatReports.RateIs | internal/app/match/update_stat.go:154-161 | In every run a windowed rate is 0 if the window is empty, and otherwise its coefficient times the current value minus the value before the oldest retained sample, over the time since the sample before that one (plus 1 if the two came at one time); then it is 0 only if the two values are equal |
| StatReports.RatesReported | internal/app/match/update_stat.go:163-170 | The rates reported with an accepted sample are those of the windows it leaves |
| StatReadings.PlainRatesAre | internal/app/match/update_stat.go:98-107 | In every run gold, iron and coal are reported as 0 with the first accepted sample, and otherwise as 12.5 times the growth since the accepted reading before, over the time since it, or 1; positive, zero or negative as the reading rose, stayed or fell |
| StatReadings.WindowedRateIs | internal/app/match/update_stat.go:109-170 | In every run the other six rates, on the readings alone: window length, coefficient, oldest reading in the window, growth since the one before it, and span |
| StatCounters.RunUnwraps | internal/app/match/update_stat.go:75-85 | In every run stored peasants and units are, to 32 bits, the readings unwrapped by always taking the least congruent value not below the previous one |
| StatCounters.AdvanceIsLeast | internal/app/match/update_stat.go:75-79 | That value is the least one |
| StatCounters.PeasantsTracked | internal/app/match/update_stat.go:75-79 | A true counter that grows by less than 65536 between accepted samples is tracked exactly |
| StatCounters.UnitsTracked | internal/app/match/update_stat.go:81-85 | The same for units |
| StatCounters.RunFollowsScore | internal/app/match/update_stat.go:87-96 | In every run the real score follows the readings to the nearest congruent value, and no sample moves it by more than 32768 |
| StatCounters.ScoreTracked | internal/app/match/update_stat.go:87-96 | A true score that starts in 0..65535 and moves by at most 32767 between accepted samples is reported exactly |
| StatCounters.CasualtiesClosedForm | internal/app/match/update_stat.go:171-173 | In every run the tally is the difference of the population gains plus 2^32 per drop of Population2 minus 2^32 per drop of Population |
| StatCounters.CasualtiesRightIff | internal/app/match/update_stat.go:171-173 | In every run the tally is the gain of the unwrapped peasant and unit readings minus that of the population readings, less 2^32 for every drop of the population reading; so it is right if and only if that reading never dropped |
| StatCounters.CasualtiesExactIff | internal/app/match/update_stat.go:171-173 | Measured on the stored 32-bit Population2, the tally is the plain difference if and only if Population2 and Population dropped equally often, and always modulo 2^32 |
| StatCounters.DropExample | internal/app/match/update_stat.go:171-173 | One villager fewer moves the tally by 1 - 2^32 |
| StatService.UpdateStat | internal/app/match/update_stat.go:28-179 | The verdict for every input; a rejected sample leaves the player untouched, an accepted one applies the model's step and its rates, and gives the player of an empty-handed first sample the colour of the first started teammate; the room changes only in its clock, which never goes back |
| StatService.UpdateRolling | internal/app/match/update_stat.go:134-148 | The append-and-prune loop equals the specification on one window and leaves the others alone |
| StatService.InheritColor | internal/app/match/update_stat.go:64-73 | The colour taken is that of the first started teammate |
| StatService.TeamColorIsFirst | internal/app/match/update_stat.go:64-73 | That teammate is another player of the same team with no such player before him, and there is no colour only if there is none |
| StatService.InheritsIff | internal/app/match/update_stat.go:64-73 | A colour is inherited if and only if the player has no sample yet, the reading has neither score nor population, and there is such a teammate |
| StatService.VerdictIs | internal/app/match/update_stat.go:33-52 | The verdict on the bytes of a payload |
| StartedUsers.PostedMembersArePrefix | internal/app/match/start_payload.go:62-133 | The posted players who belong to the room are, in order, a prefix of the started users, who are at most count and all members |
| StartedUsers.PostedAllAgree | internal/app/match/start_payload.go:83-133 | When fewer than count players are posted the two lists agree on the members |
| StartedUsers.ApplyStartedUsers | internal/app/match/started_users.go:26-59 | By argument position: the started users are, in order, the players of the first count tuples that are readable and name a player of the room; each player of the room has the 32-bit nation, team and colour written second, third and fourth in the last of them that names him, or is as before |
| StartedUsers.BuildPlayers | internal/app/match/start_payload.go:62-133 | By argument position: the players posted are those of the first count readable tuples, in order, with the integers written behind each; nothing is posted if and only if the count is missing or not positive |
| StartedUsers.CountIs | internal/app/match/started_users.go:31-34 | The count is the third argument, and without a positive one there is none |
| CommandText.TextRoundTripIff | internal/transport/gsc/commandset.go:24-43 | Parsing undoes printing if and only if the set is non-empty and no name holds '&' or '\|' |
| CommandText.ReparseStable | internal/transport/gsc/command.go:32-52 | Printing and parsing again changes nothing that was parsed once, for every text |
| CommandText.ArgRoundTrip | internal/transport/gsc/command.go:54-76 | Escaping is undone for arbitrary argument bytes |
| WireFormat.EscapeOf | internal/transport/gsc/command.go:25-30 | Backslash, '&', '\|' and NUL are written as a backslash and two upper-case hexadecimal digits, every other byte as it is |
| WireFormat.EncodeConcat | internal/transport/gsc/command.go:74-76 | Escaping works byte by byte, in order |
| WireFormat.DecodeStep | internal/transport/gsc/command.go:54-72 | A backslash with two hexadecimal digits of either case behind it is read as one byte, anything else as it stands |
| WireFormat.PrintedCommand | internal/transport/gsc/command.go:32-52 | A command is printed as its name and each argument behind a '&' |
| WireFormat.PrintedSet | internal/transport/gsc/commandset.go:36-43 | A set is printed as "GW\|", its first command, and each further one behind a '\|' |
| WireFormat.PrefixOptional | internal/transport/gsc/commandset.go:24-34 | Text reads the same with the prefix and without |
| CommandText.ParseSetLoop | internal/transport/gsc/commandset.go:24-34 | The parsing loops equal the specification |
| CommandText.PrintSetLoop | internal/transport/gsc/commandset.go:36-43 | The printing loops equal the specification |
| CommandBinary.BinaryRoundTripIff | internal/transport/gsc/commandset.go:45-122 | Decoding inverts encoding, whatever bytes follow, if and only if every length fits its field and the bytes do not end on an empty argument |
| CommandBinary.DecodedIsEncodable | internal/transport/gsc/commandset.go:76-122 | Whatever decodes fits all length fields |
| WireFormat.CommandLayout | internal/transport/gsc/commandset.go:45-74 | Which bytes of an encoded command are the name, the two counts and the arguments |
| WireFormat.SetLayout | internal/transport/gsc/commandset.go:45-74 | An encoded set is the number of commands in two bytes and the commands in order |
| WireFormat.ByteOfNumber | internal/transport/gsc/commandset.go:45-74 | Numbers are written with byte i counting 256^i |
| WireFormat.PackedAt | internal/app/gsc/commands/gettbl.go:119-141 | Tag i is packed into the four bytes at 4i |
| CommandInputs.DecodesIff | internal/transport/gsc/commandset.go:76-122 | An input decodes to a given set if and only if every length fits its field and the input is the encoding followed by anything, but not by nothing if it ends on an empty argument, or the encoding less some zero bytes at its end, fewer than the last argument has bytes |
| CommandBinary.MarshalBinary | internal/transport/gsc/commandset.go:45-74 | The writing loops equal the specification; only an over-long name fails |
| CommandBinary.UnmarshalBinary | internal/transport/gsc/commandset.go:76-122 | The reading loops equal the specification |
| Framing.ReadFrameIff | internal/transport/gsc/stream.go:43-198 | Reading a frame consumes exactly its bytes, whatever follows, and yields the stream unless it ends on an empty argument |
| Framing.FramesReadInOrder | internal/transport/gsc/stream.go:174-198 | Back-to-back frames are read in order, one per read |
| Framing.ReadFrom | internal/transport/gsc/stream.go:174-198 | Result and unread input for every input, including short, oversized and undersized frames |
| WireFormat.HeaderBytes | internal/transport/gsc/stream.go:71-94 | Which bytes of the header are the number, language, version, frame size and payload length |
| WireFormat.GotIff | internal/transport/gsc/stream.go:112-198 | A read yields a given stream if and only if the frame is whole, within the cap and carries its header, and its body inflates to as many bytes as announced, which decode to the commands |
| WireFormat.OverCapRefused | internal/transport/gsc/stream.go:180-183 | A frame announced above the cap is refused at its header and nothing behind it is read |
| WireFormat.ShortInputFails | internal/transport/gsc/stream.go:174-190 | An input that ends inside a frame is an error |
| Framing.PanicsIff | internal/transport/gsc/stream.go:174-188 | A read panics if and only if a complete header's size field is below 12 and passes the cap |
| Framing.ZeroHeaderPanics | internal/transport/gsc/stream.go:180-188 | Twelve zero bytes do it, under any cap and whatever follows |
| Framing.ReadsPanicIff | internal/transport/gsc/stream.go:174-198 | In a sequence of reads the k-th panics if and only if what the earlier ones left starts with such a header |
| Framing.FramesThenPanicIff | internal/transport/gsc/stream.go:174-198 | After any number of well-formed frames the next read panics if and only if such a header follows them |
| OpenParams.OpenParamsRoundTripIff | internal/app/gsc/commands/route_open.go:137-187 | For distinct keys of key bytes, parsing recovers every pair if and only if no value holds '^', key bytes and '=' in a row |
| OpenParams.ParseJoined | internal/app/gsc/commands/route_open.go:141-180 | Parsing a joined list adds its pairs in order, also with repeated keys |
| OpenParams.ParseOpenParams | internal/app/gsc/commands/route_open.go:141-180 | The nested loops equal the specification and terminate |
| WireFormat.KeyAlphabet | internal/app/gsc/commands/route_open.go:182-187 | Keys consist of letters, digits and the underscore |
| WireFormat.NothingParsed | internal/app/gsc/commands/route_open.go:141-146 | Text without '=', or beginning with it, adds nothing |

## Left out

- Templates, dialogs, text rendering, time intervals: presentation over library code.
- HTTP account calls, ranking files, configuration, logging, metrics, IRC proxy, STUN, the TCP loop: I/O.
- zlib: a pair of functions, of which decompression undoes compression.
- Mutexes and interleavings: each handler is one atomic step; the alive timer is a leave at any time.
- Wall-clock fields, `ExitedAt`, `Map`, `SaveFrom`, `PlayersTime`, room title, address and level: written but read by nothing modelled here.
- `Create` (a room from a ready-made row): same as `RegisterNew` after the row is built.
- Nick and title rules, number parsing of request fields, `IntArg`: parameters of the model.
- Account details of posted players (nick, connection time, account): only the player, nation, team and colour are modelled.
- Index maps hold room ids instead of pointers; two room objects with one id cannot be told apart.
- LobbyInvariants.RunKeepsInv: runs in which a 32-bit id counter is exhausted are excluded.
- Store.Store.Start: arming the members' alive timers is not modelled, a timer expiry being possible at any time; the posted account payload is `StartedUsers.BuildPlayers`.
- Store.Store.RegisterNew: requires that the room counter is not exhausted.
- Store.Store.RegNewRoom: requires that the room counter is not exhausted.
- HandlerExact.RunExactIff: runs in which a 32-bit id counter is exhausted are excluded.
- Framing.ReadsPanicIff: the reads of one input are modelled as going on after a panic; what the process does then is not part of this model.
- StatService.UpdateStat: rates are exact reals and window sums exact integers; rounding of float64 rates, and the 64-bit limits of the score cycle and the tally, are not modelled.
- Gettbl.Handle: whether started rooms are hidden from the caller is a parameter.
- The documentation calls the duplicated control-sum function in `internal/adapter/rooms/state.go` canonical; the two bodies are the same and are modelled once.
