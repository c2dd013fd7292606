# A verified model of the conquest game and of the network library below it

The repository is a multi-player conquest game: a server that runs rooms, a terminal client, and the socket library
both are built on. This project models the parts where something can go wrong that a type checker does not see, in the
form the source has (classes with mutable fields, arrays filled in place, loops), ties every procedure to a
specification function of its inputs or of the old state, and proves what the specification is worth.

| component | modules | source |
|---|---|---|
| game engine | `GameMap`, `GameRound`, `MapInvariant`, `RoomSpec`, `RoomRuns`, `RoomRequests`, `Rooms`, `FogOfWar`, `Sessions` | `server/game.cpp` |
| wire protocol | `Streams`, `Wire`, `Framing`, `MapView`, `MapPrivacy` | `server/server_comm.c`, `client/cliaction.c`, `lib/readn.c`, `lib/writen.c` |
| address text | `AddressText`, `AddressGrammar`, `AddressStandard`, `AddressPrinting`, `AddressFormatting`, `AddressMeaning`, `InetPton`, `InetNtop`, `InetExchange` | `libfree/inet_pton.c`, `libfree/inet_ntop.c` |
| service expansion | `AddrSpec`, `AddrList` | `libgai/ga_*.c` |
| helpers of the library | `Checksum`, `LineReader`, `RoundTripTime` | `libfree/in_cksum.c`, `lib/readline.c`, `lib/rtt.c` |

`Integers`, `Families`, `Wrappers` and `Sequences` hold bytes and words, address families, an option type and two facts
about concatenation. Every lemma switches Dafny's own induction off, so that each induction is one that is written out.

## Main results

* **Runs of a room.** `RoomSpec.Run` applies any sequence of joins, starts, quits, submitted actions and ticks to a
  room. Every reachable state keeps the invariant (`RoomRuns.RunInv`), nothing that must not go back does (`RunLater`),
  the soldiers stay under a ceiling that rises by a fixed amount a round (`SoldierBound`), the action queues are first
  in, first out (`Fifo`), and a round changes every owner's soldiers by exactly its growth minus its casualties
  (`GameRound.RoundAccount`, `RoundTotal`, `RoomRuns.TickAccount`). The class `Rooms.Room` refines this step by step.
* **Nobody else plays.** A request under another session than that of its seat is refused and changes nothing, and no
  other request is (`RoomRequests.StrangerRefused`, `SeatedHeard`). As long as nobody carries a player's session, no
  run takes his seat, makes him quit or queues an action for him (`NobodyQuitsForHim`, `NobodyActsForHim`; for player 0
  as long as nobody uses session 0 either). What a tick carries out is what it takes from the front of the queues,
  player by player (`RoomRuns.TickCarriesOut`).
* **Fog of war.** A masked map tells a player his own cells, the mountains and the cells within one step of his own,
  and not one bit more: two maps are masked alike if and only if they agree there (`FogOfWar.MaskIsExact`). The same
  holds of the answer (`MapPrivacy.AnswerTellsExactly`) and of its bytes (`BytesDoNotInterfere`), and the client holds
  fog for every other cell (`PlayerSeesNoMore`, `Refresh`). Others get no map, but under the built-in session number and
  once the game is over (`WhoIsAnswered`).
* **From the server's map to the client's grid.** `MapView.RefreshMap` runs from the room through `Map_Info`,
  `sendData`, any network that cuts the bytes into pieces, `recv_data` and `map_update`: the client's grid then holds,
  at row * SIZEY + column, the cell that the server's answer has there, on hosts of either byte order. It gets there
  exactly if the player is to have the map, the map has at most 4093 cells, all bytes can be written and they come in
  time for the client's two reads. The room may be any that requests and ticks can lead to (`PlayerSees`) as long as
  its figures fit an int. The bound comes from the 16-bit length (`ReplySize`): of every larger map the client receives
  a reply that announces less than its own header, or more cells than it holds (`TooManyCells`).
* **From the client's requests to the server.** `Framing.Exchange` sends any list of requests over any network: exactly
  if every write takes its whole request, all are sent, and the server then reads just that list, in its own byte order.
* **Session numbers.** The generator has the full period 2^32 (`Sessions.Period`), by the 2-adic valuation of the
  geometric sum; sessions issued between two reseeds differ (`SessionsDiffer`), and every number comes up
  (`EveryNumber`), 0 included.
* **IPv6 text.** The in-place parser accepts exactly the texts of an explicit grammar and stores what they denote
  (`AddressGrammar.TextGrammar`), which derives every text once (`AddressStandard.RenderIsInjective`). The printer
  prints the text that compresses the leftmost longest run of two or more zero words
  (`AddressFormatting.FormattedIsRendered`, `AddressPrinting.BestIsBest`; character by character in
  `AddressMeaning.PrintedForm` and `DottedExactly`), and parsing undoes printing for all 2^128 addresses
  (`AddressPrinting.RoundTrip`), also from buffer to buffer and for both families (`InetExchange.PrintAndParse`).
* **Cloning while walking.** `ga_port` inserts clones into the list it is walking; after any number of passes the list
  is made of one group for every address, in order (`AddrSpec.PassesGroup`), in unshared nodes and address blocks
  (`AddrList.Port`).
* **Streams.** Framing, `readn` and `readline` do not depend on how the bytes are cut into pieces
  (`Framing.ReceiveList`, `Streams.ReadN`, `LineReader.LinesConserve`).

## Where the source does not do what it says

* `libfree/inet_pton.c:134` says that `::` in a full address is ignored. The shift loop (lines 213-216) then copies
  every byte behind `::` onto itself and clears it. `AddressGrammar.FullGapIsIgnored` proves when the comment is right:
  exactly if all these bytes are 0. `FullGapWipesTheTail` has a text for which it is not.
* `libfree/inet_pton.c:131` says that the valid addresses of section 2.2 of RFC 4291 are accepted and no others. All of
  them are, but so are others. `AddressStandard.StandardTexts` proves which: an accepted text is one of that section
  exactly if it has no group of more than four digits, no single colon at the end and no `::` among eight pieces.
  `FiveDigitsAreAccepted`, `ColonIsAccepted` and `FullGapIsAccepted` have a text for each. (The section sets no limit to
  the digits of a decimal value, and neither does the definition of `Standard`.)
* `libfree/inet_ntop.c:95` compares the length without the NUL. `InetNtop.Ntop4` proves that it stays within the size it
  is given exactly if that is not the length of the text; `QuadOverruns` has 0.0.0.0, which takes eight characters of a
  buffer for seven.
* `lib/readline.c:48` returns one more than the bytes stored exactly if no newline, end of file or error is among the
  first maxlen - 1 items (`LineReader.LineShape`; `FullRoomCountsOneMore` has an input). For a buffer of no bytes it
  stores a NUL all the same and returns 1 (`NoRoomCountsOne`).
* `client/cliaction.c:79-95` reads header and rest with one `read` each and ends the client when one falls short, unlike
  the server's `recvData`. `Framing.ClientRecv` says exactly when it goes on: when the reply comes in one piece, or cut
  just behind its header. `Framing.CutInTwo` and `CutInThree` have the blocks that only the server's reader takes.
* For an announced length below 64, `server/server_comm.c:51-52` copies 64 bytes into a smaller block, and so does
  `client/cliaction.c:84-91`, which then also asks `read` for a negative number of bytes. What follows is not defined;
  the model stops there, with the outcome `ShortLength` or `Undefined`. `Framing.ShortLengthIs` says for which pending
  bytes: a whole header with 0 in its first byte and less than 64 in its second. `ZeroHeader` has one.
* `client/cliaction.c:327-333` copies as many cells as a reply announces, whether it holds them or not.
  `MapView.Client.MapUpdate` says for which it does, and stops for the others. The server sends such replies itself: for
  any map of n >= 4094 cells its length is cut to 16 bits, and what is received holds fewer cells than it announces,
  except where (n + 2) % 4096 < 4; there it announces less than a header. `MapView.TooManyCells` proves both for all n,
  and `OneRowTooLong` has a map of one row.
* `server/game.cpp:314-316` reads as many actions as a request announces, whether it holds them or not.
  `RoomRuns.SubmitOverreads` says when: exactly for a request that is accepted and announces more than it holds. The
  model stops there, with the outcome `Overread`.
* `server/game.cpp:357-381` answers the session number 998244353 with the whole map, from any player and without a test.
  The number is not set aside: a server whose generator is seeded with 1738895248 issues it first, to an ordinary player
  (`MapView.SuperIsIssued`). Before the start the map that it asks for does not exist; the model's outcome is `NoMap`.
* A session can be 0, which marks a free seat (`server/game.cpp:203`): `RoomRuns.JoinTakesSeat` says that the seat is
  then given away again, with the name left in it, so that quitting does not undo joining it (`QuitUndoesJoin`, and
  `NameIsLost` for every name), and `FreeSeatQueuesForFirst` that a request for a free seat under session 0 queues for
  player 0. It is also shown what player 0 may see (`MapPrivacy.FreeSeatSeesForFirst`).
* The map reply has room for two cells in its header: for a map of one cell it is 16 bytes longer than needed.
* `in_cksum` keeps its sum in 32 bits. `Checksum.WrapIsHarmless` says exactly for which longer buffers the answer is
  right all the same, and `WrapLosesCarry` that one word more than 65537 can be too many.

## Model

| member | source | states |
|---|---|---|
| GameMap.OwnersAddUp | server/game.cpp:420-432 | the totals that are kept for each owner, neutral included, add up to all soldiers on the map |
| GameRound.GrowAccount | server/game.cpp:485-498 | growth gives every owner one soldier a home, one a castle (neutral ones only below 40) and, in every 25th round, one an owned space |
| GameRound.MoveAccount | server/game.cpp:517-531 | an action costs attacker and defender the same number, the smaller of sent and held, and nobody else anything; a move among one's own cells costs nothing |
| GameRound.PlayAccount | server/game.cpp:506-534 | the same over one action from every queue, with a log of the battles fought on the way |
| GameRound.RoundAccount | server/game.cpp:471-534 | a round changes every owner's soldiers by its growth minus its casualties, for any map, owner and queues |
| GameRound.RoundTotal | server/game.cpp:471-534 | a round changes the soldiers on the map by the growth minus twice those that fell |
| GameRound.BattleSides | server/game.cpp:522 | every battle of a round is fought in the attacker's turn for a cell inside the map that its defender, another owner, holds with so many soldiers at that moment |
| GameRound.FrontIsPlayed | server/game.cpp:506-510 | turns are taken in the order of the players, and what a turn carries out and fights is the action at the front of the queue |
| MapInvariant.MoveMeans | server/game.cpp:501-531 | an action is legal exactly on an own cell, with a neighbour on the map that is no mountain, for the four directions in the order of the tables; an illegal one changes nothing, a legal one changes these two cells only, sends half or all but one, and takes a foreign cell exactly if more arrive than it holds |
| MapInvariant.MoveKeeps | server/game.cpp:517-531 | an action keeps every cell good (see RoomRuns.RunInv), its type, and owned cells owned |
| MapInvariant.RoundKeeps | server/game.cpp:485-534 | a round keeps all cells good and their types, and makes no owned cell neutral |
| MapInvariant.RoundBound | server/game.cpp:485-534 | a round keeps the soldiers under the ceiling of 40 a castle, one a round for homes and castles and one in 25 rounds for spaces |
| MapInvariant.CellBound | server/game.cpp:525-530 | no cell of a reachable map holds more than the ceiling |
| MapInvariant.TurnBound | server/game.cpp:485-534 | nor does it after the growth and any number of turns of a round, with the ceiling of that round, so that no value stored on the way is larger |
| RoomSpec.FirstFree | server/game.cpp:201-206 | the lowest seat with session 0, -1 exactly if there is none |
| RoomRuns.RegisterInv | server/game.cpp:149-192 | a new room satisfies the invariant |
| RoomRuns.StartInv | server/game.cpp:97-128 | so does a room after a start, whatever the shuffle and the draws |
| RoomRuns.NewHomes | server/game.cpp:109-114 | the map generated has a home for player i at the i-th shuffled point, where his seat says it is |
| RoomRuns.NewCells | server/game.cpp:115-126 | the cell at every shuffled point is the home of its player or what its draw says: below 0.1 a mountain, below 0.15 a castle of 40, else an empty space, all neutral |
| RoomRuns.NewFieldGood | server/game.cpp:109-126 | a generated map is good and holds at most 40 soldiers a castle |
| RoomRuns.NextRoundInv | server/game.cpp:471-545 | a round keeps the invariant |
| RoomRuns.ApplyInv | server/game.cpp:193-332 | every request and tick keeps the invariant |
| RoomRuns.RunInv | server/game.cpp:97-545 | in every reachable state soldiers are never negative, mountains neutral and empty, homes owned, neutral spaces empty and neutral castles at most 40, owners are players, homes are distinct home cells, and before the start nothing is queued |
| RoomRuns.RunLater | server/game.cpp:193-294 | over every run the game only goes from waiting to playing to ended, cell types and homes stay, no owned cell becomes neutral, and a seated player who died or quit is never alive again |
| RoomRuns.AfterRound | server/game.cpp:536-544 | after a round everybody alive owns his home, those who lost it are dead and nobody else changed, and the game goes on exactly if two are alive |
| RoomRuns.TickCarriesOut | server/game.cpp:506-531 | a tick lets the map grow for the next round and then, player by player, carries out just the actions that it takes from the queues, each on the map left by those before |
| RoomRuns.TickAccount | server/game.cpp:471-534 | a tick changes every owner's soldiers by the growth of the next round minus its casualties |
| RoomRuns.IdleTick | server/game.cpp:547-555 | a tick changes a room exactly if it is in a game |
| RoomRuns.RoundsAreTicks | server/game.cpp:471-473 | over any run the round goes up by the number of ticks that found the room in a game |
| RoomRuns.SoldierBound | server/game.cpp:116-126 | after r rounds of any run there are at most 40 soldiers a castle, r for every home and castle and r/25 (rounded down) for every space |
| RoomRuns.Fifo | server/game.cpp:314-316 | over every run what a queue held and was given equals what was taken from it, one action a round, followed by what it still holds |
| RoomRuns.OwnQueue | server/game.cpp:314-316 | an accepted request adds to the queue of its own seat and to no other exactly if the seat carries its number or nothing is added, and every seat taken does |
| RoomRuns.SubmitOverreads | server/game.cpp:308-316 | a request is read behind its end exactly if it is accepted and announces more actions than it holds |
| RoomRuns.NeverActsAgain | server/game.cpp:308-312 | whoever died or quit in a started game has every later action refused |
| RoomRuns.QuitUndoesJoin | server/game.cpp:274-294 | quitting before the start restores the room as it was before joining exactly if the seat was as new |
| RoomRuns.NameIsLost | server/game.cpp:201-228 | after somebody joined under session 0 with a name, the next to join can be seated, and his quitting does not restore the room |
| RoomRuns.FreeSeatQueuesForFirst | server/game.cpp:88-95 | in a started game a request for a free seat under session 0 is accepted and queues for player 0 |
| RoomRuns.JoinTakesSeat | server/game.cpp:201-228 | joining takes the lowest free seat and leaves the name in it, and the seat stays free exactly if the session issued is 0 |
| RoomRequests.StrangerRefused | server/game.cpp:88-95 | a start, a quit or actions under a session that is not that of the seat named are refused, and nothing changes |
| RoomRequests.SeatedHeard | server/game.cpp:88-95 | nobody else is refused so |
| RoomRequests.RegisterMeans | server/game.cpp:149-192 | a new room waits, with the name, session and password it was given, its owner in seat 0 and all other seats free |
| RoomRequests.JoinMeans | server/game.cpp:193-234 | joining is refused exactly if no seat is free or else the password is wrong, and otherwise changes the lowest free seat only |
| RoomRequests.QuitMeans | server/game.cpp:274-294 | quitting leaves the seat as new before the start and out of the game afterwards, and changes nothing else |
| RoomRequests.StartMeans | server/game.cpp:235-256 | a game is started once, and only the homes of the players change |
| RoomRequests.SubmitMeans | server/game.cpp:295-332 | actions are queued exactly for the living in a running game: as many as announced, in order, behind those that wait |
| RoomRequests.NobodyQuitsForHim | server/game.cpp:274-294 | in every run without a request under his session a player keeps his seat and name and does not quit |
| RoomRequests.NobodyActsForHim | server/game.cpp:295-332 | nor is any action queued for him, provided for player 0 that nobody uses session 0 |
| Rooms.Room.Register | server/game.cpp:149-192 | the room created is the specified one, with its owner in seat 0 under a fresh session |
| Rooms.Room.FindFree | server/game.cpp:168-173 | the search over the seats finds the lowest free one |
| Rooms.Room.Join | server/game.cpp:193-234 | the new state and the reply are the specified ones, refusals included, and the invariant is kept |
| Rooms.Room.Start | server/game.cpp:235-256 | the same for a start, for every shuffle and all draws |
| Rooms.Room.GenMap | server/game.cpp:97-128 | assigning the cells point by point leaves none of the initial garbage and gives the specified map |
| Rooms.Room.Quit | server/game.cpp:274-294 | the same for quitting: a seat is freed before the start and marked afterwards |
| Rooms.Room.AddAction | server/game.cpp:295-332 | the loop that pushes the announced actions gives the specified queues, a refusal changes nothing, and a request that announces more than it holds is told apart |
| Rooms.Room.Carry | server/game.cpp:508-531 | the in-place update of source and target gives the specified map |
| Rooms.Room.GrowAll | server/game.cpp:485-498 | the three tests on every cell, in place, give the specified growth |
| Rooms.Room.PlayAll | server/game.cpp:506-534 | the loop over the players pops one action from every non-empty queue and plays it on the map left by those before |
| Rooms.Room.JudgeAll | server/game.cpp:536-544 | the last loop marks the dead, counts the living and ends the game as specified |
| Rooms.Room.NextRound | server/game.cpp:471-545 | the fields updated in nested loops end up as the specified next state |
| Rooms.Room.Tick | server/game.cpp:547-555 | a tick plays a round exactly in a room that is in a game, and keeps the invariant |
| Rooms.Room.SeesCell | server/game.cpp:343-347 | the two loops over the offsets find a cell of the player exactly if one lies within one step on the map |
| Rooms.Room.MapMask | server/game.cpp:333-355 | the array filled cell by cell holds the rows of the mask one behind the other |
| Rooms.Room.MapCopy | server/game.cpp:334-339 | without a player it holds the whole map |
| Rooms.Room.GetStat | server/game.cpp:420-432 | every player's figures are his number of cells and his soldiers, as sums over the map, and his state |
| FogOfWar.MaskDoesNotInterfere | server/game.cpp:340-353 | maps that agree on the player's cells, on the mountains and within one step of his cells are masked alike |
| FogOfWar.MaskIsExact | server/game.cpp:340-353 | and only these are |
| FogOfWar.MaskIsIdempotent | server/game.cpp:340-353 | masking a masked map changes nothing |
| FogOfWar.FlatAt | server/game.cpp:349-351 | the cell at a row and a column stands at row * sizeY + column of the array |
| Sessions.Generator.Get | server/game.cpp:43-48 | a state of 0 is seeded first, then the state advances by one step of the 32-bit sequence |
| Sessions.GeometricValuation | server/game.cpp:46 | 1 + a + ... + a^(n-1), for the multiplier a, has exactly the factors of two that n has |
| Sessions.IterateGap | server/game.cpp:46 | n steps of the wrapping sequence move x by the geometric sum times a number, which is odd, modulo 2^32 |
| Sessions.Period | server/game.cpp:46 | the sequence returns to where it started exactly after multiples of 2^32 steps |
| Sessions.EveryNumber | server/game.cpp:46 | every 32-bit number comes up, 0 included |
| Sessions.SessionsDiffer | server/game.cpp:43-48 | two sessions differ unless the sequence was seeded again between them |
| Streams.ReadN | lib/readn.c:4-26 | the loop over short and interrupted reads returns what a single ideal read of n bytes would, or fewer at an end of file, or -1 |
| Streams.TakeMeans | lib/readn.c:12-26 | an end of file or an error in front of the last byte asked for is used up, and only an error is reported as -1 |
| Streams.AllWritten | lib/writen.c:13-23 | all bytes are written exactly if what refuses to write comes behind enough that was accepted |
| Streams.WriteN | lib/writen.c:4-25 | the bytes that are accepted before anything refuses are written once and in order, and -1 is returned exactly if these are not all |
| LineReader.Reader.Fill | lib/readline.c:12-21 | refilling the empty buffer loses and adds nothing, and reports an end of file or an error that was next |
| LineReader.Reader.MyRead | lib/readline.c:8-26 | one byte is taken from the front of buffer and source together |
| LineReader.Reader.ReadLine | lib/readline.c:28-49 | for every size, 0 included, count, bytes stored, NUL and what is left to read are those of a reader without a buffer, and the NUL stays within the size exactly if that is not 0 |
| LineReader.LineConserves | lib/readline.c:35-45 | the bytes of a line, what stopped it and what is left are what was pending |
| LineReader.LineShape | lib/readline.c:35-48 | a line ends at its only newline, at the end of its room or at the end of file, and its count is its length, but one more exactly if neither newline nor end of file nor error is among the first items that fill its room |
| LineReader.FullRoomCountsOneMore | lib/readline.c:48 | one byte stored in a full room is counted as two |
| LineReader.NoRoomCountsOne | lib/readline.c:35-48 | a size of 0 reads nothing and counts one byte |
| LineReader.LinesConserve | lib/readline.c:28-49 | over any sequence of calls the lines are consecutive pieces of the input |
| LineReader.ReadLines | lib/readline.c:28-49 | a sequence of buffered calls, of any sizes, delivers what a sequence of unbuffered ones would |
| Wire.WordRoundTrip | server/server_comm.c:2-8 | an int survives a host's memory in either byte order |
| Wire.FlipLayout | server/server_comm.c:2-8 | converting the ints of a block turns the order of a host into network order, and network order into that of any other host, and leaves the bytes behind them |
| Wire.PackedLength | server/server_comm.h:5-8 | adding and or-ing in the length, as the server does, equals or-ing it in, as the client does, and leaves the low 16 bits of the length above an intact code |
| Wire.PackedShort | server/server_comm.h:5-8 | a length below 2^16 is read back as it was |
| Wire.KnownRequests | server/server_comm.c:64-71 | the well-formed requests are, below 2^16 bytes, those of code 1 or 2 with eight ints and those of codes 3 to 8 that are all ints |
| Wire.KnownReplies | server/server_comm.c:16-29 | the same for the seventeen codes of replies |
| Wire.RequestsOfEachCode | client/cliaction.c:48-63 | eight ints with names behind them, and 16 ints or more, make a request under the codes they belong to, and nothing does under another code |
| Framing.KnownCodes | server/server_comm.c:62-78 | a block is decoded exactly if its third and fourth byte are one of these codes |
| Framing.ErrorReplies | client/cliaction.c:35-40 | of the replies that can come the nine failures end the client |
| Framing.EncodeLayout | server/server_comm.c:10-38 | what is sent for a message with a known code, of whatever length, does not depend on the byte order of the sender |
| Framing.DecodeWire | server/server_comm.c:65-80 | what is decoded is the message in the byte order of the receiver, with the length cleared from its code |
| Framing.ReceiveOne | server/server_comm.c:40-85 | a well-formed message is received whole and nothing behind it is touched |
| Framing.ReceiveList | server/server_comm.c:40-85 | a list of messages sent one behind the other is received as that list, in order, and every byte is used |
| Framing.ReceiveCut | server/server_comm.c:40-85 | a message of 2^16 bytes or more is received cut to its length modulo 2^16, and the rest of it is left in front of the next message |
| Framing.FlipArr | server/server_comm.c:2-8 | the loop converts the first n ints in place and leaves the rest |
| Framing.SendData | server/server_comm.c:10-38 | of the encoded block what is accepted is written, in order, and -1 is returned exactly if that is not all or the code is unknown, for which nothing is written |
| Framing.RecvData | server/server_comm.c:40-85 | the outcome and what is left to read are those of receiving from the uncut stream, short, failed and unknown messages included |
| Framing.ShortLengthIs | server/server_comm.c:44-52 | the announced length is below that of the header exactly if a whole header is pending with 0 in its first byte and less than 64 in its second |
| Framing.ZeroHeader | server/server_comm.c:44-52 | a header of zeros is one |
| Framing.Serve | server/server_comm.c:40-85 | reading a connection until a message fails delivers all messages in front of it |
| Framing.ClientSend | client/cliaction.c:43-73 | the client goes on exactly if the code is known and one write takes the whole encoded request, and what that write takes is written |
| Framing.SendAll | client/cliaction.c:43-73 | the client goes on through a list of requests exactly if one write takes the whole of each, and then they stand on the wire one behind the other |
| Framing.Exchange | server/server_comm.c:40-85 | over any network the server reads just the requests sent, in order and in its own byte order |
| Framing.ClientRecv | client/cliaction.c:75-129 | what the client takes is what the server's reader would; it goes on exactly for replies that are no errors and come in one piece or cut just behind the header, and what it does is undefined exactly for a header in one piece that announces less than its own length |
| Framing.CutInTwo | client/cliaction.c:79-95 | a block cut in two is the same to the server's reader, and comes in time for the client exactly if the first piece is its header |
| Framing.CutInThree | client/cliaction.c:79-95 | in three pieces or more it never comes in time |
| MapView.ReplySize | server/game.cpp:400-414 | the length of the map reply covers its cells exactly, from two cells on and for no fewer, and fits its 16 bits exactly up to 4093 cells |
| MapView.ReplyInts | server/data_format.h:192-213 | every int of the reply stands where the protocol has it: the eight of the header, and for every cell the number of its type, its owner and its soldiers |
| MapView.TooManyCells | server/game.cpp:400 | from 4094 cells on the client receives a reply that is cut to its length modulo 2^16: it announces less than its header exactly if (n + 2) % 4096 < 4, and otherwise arrives and announces more cells than it holds |
| MapView.OneRowTooLong | server/game.cpp:400 | any map of one row of 4098 cells arrives as a bare header that announces all of them |
| MapView.SuperIsIssued | server/game.cpp:357-381 | a new generator seeded with one named number issues the built-in session number first, its sequence comes to it from everywhere, and whoever carries it is answered with the whole map once there is one |
| MapView.MapInfo | server/game.cpp:356-418 | the map is sent, whole for the built-in session number or after the end and masked for the living of a running game, as the encoding of the specified reply and exactly as far as it can be written; all others are refused, and before the start there is no map |
| MapView.SentIsWire | server/server_comm.c:10-38 | for a map of any size the bytes sent are the reply on the wire |
| MapView.Client.MapUpdate | client/cliaction.c:320-338 | the client's figures and grid are those of a decoded reply that holds the cells it announces; for one that does not, which the source copies untested, it says so (such replies: TooManyCells) |
| MapView.EndToEnd | client/cliaction.c:75-129 | the reply for any map of at most 4093 cells decodes, on a host of either byte order, to its figures and its cells at row * SIZEY + column |
| MapView.PlayerSees | client/cliaction.c:75-129 | in every room that requests and ticks can lead to, as long as its figures fit an int, the reply decodes to the figures and cells of the answer |
| MapView.TakeIn | client/cliaction.c:320-338 | the client's grid is replaced, by the cells of the reply, exactly for replies that are received in time, are no errors and hold what they announce |
| MapView.RefreshMap | client/cliaction.c:320-338 | from the room over any network to the client: the grid holds the answered map at row * SIZEY + column, on hosts of either byte order, exactly if there is an answer of at most 4093 cells, all of it can be written and it comes in time; otherwise the grid stays |
| MapView.DrawnOwner | client/cliscreen.c:251-253 | the owner drawn at a row and a column is the one that the answered map has there |
| MapPrivacy.WhoIsAnswered | server/game.cpp:356-398 | before the game is over, and but for the built-in number, a map is sent exactly to a seat under its session whose player is alive in a running game |
| MapPrivacy.StrangersSeeNothing | server/game.cpp:356-398 | under a session that is not that of the seat there is a map only for that number or once the game is over |
| MapPrivacy.FreeSeatSeesForFirst | server/game.cpp:382-411 | in a started game a request for a free seat under session 0 is answered with what player 0 may see |
| MapPrivacy.GridHides | client/cliaction.c:320-338 | the client's grid holds the types by their numbers, owners and soldiers of mountains and of cells within one step of the player's own, and fog, neutral and 0, for all others |
| MapPrivacy.AnswerTellsExactly | server/game.cpp:340-353 | in two running games with the same figures and seats a player is answered alike exactly if he cannot tell the maps apart |
| MapPrivacy.BytesDoNotInterfere | server/game.cpp:400-414 | not a byte that is sent depends on a cell he may not see |
| MapPrivacy.PlayerSeesNoMore | client/cliaction.c:75-129 | in every reachable room his client decodes the figures, by their numbers, and every cell as he may know it |
| MapPrivacy.ReplyEchoes | server/game.cpp:402-405 | the reply repeats session, room and player |
| MapPrivacy.Refresh | client/cliaction.c:320-338 | over any network a map gets into the grid of somebody alive and seated only, with fog where he may not see, but for that number and after the end |
| AddressGrammar.NumeralValue | libfree/inet_ntop.c:181 | a number printed in hexadecimal or decimal digits reads back as that number |
| AddressGrammar.DigitsAre | libfree/inet_pton.c:145-170 | a character is the digit d exactly if it stands at place d of one of the two tables, and the printer uses the lower one |
| AddressGrammar.DigitsAreThese | libfree/inet_pton.c:91-103 | no other character is a digit, and the decimal ones are 0 to 9 |
| AddressGrammar.ValueIsPositional | libfree/inet_pton.c:168-170 | a digit behind a numeral counts the numeral 16 times, or 10 times |
| AddressGrammar.NumeralIsShort | libfree/inet_ntop.c:181 | numbers are printed in lower-case digits, without zeros in front |
| AddressGrammar.QuadGrammar | libfree/inet_pton.c:86-125 | a dotted quad is accepted exactly if it is four decimal octets of at most 255, and gives these |
| AddressGrammar.TextGrammar | libfree/inet_pton.c:140-224 | an IPv6 text is accepted as an address exactly if the grammar derives it and it denotes that address |
| AddressStandard.RenderIsInjective | libfree/inet_pton.c:140-224 | no text is derived in two ways |
| AddressStandard.StandardTexts | libfree/inet_pton.c:127-139 | a text is one of section 2.2 of RFC 4291 exactly if it is accepted and has no group of more than four digits, no single colon at the end and no `::` among eight pieces |
| AddressStandard.AcceptedIsStandard | libfree/inet_pton.c:127-139 | for an accepted text the same conditions decide whether the one way to derive it is standard |
| AddressStandard.FiveDigitsAreAccepted | libfree/inet_pton.c:165-174 | 00001:: is accepted and no text of section 2.2 |
| AddressStandard.ColonIsAccepted | libfree/inet_pton.c:175-190 | so is 0:0:0:0:0:0:0:0: |
| AddressStandard.FullGapIsAccepted | libfree/inet_pton.c:205-218 | so is 0:0:0:0:0:0:0::1 |
| AddressGrammar.FullGapIsIgnored | libfree/inet_pton.c:205-218 | `::` in a full address is ignored exactly if all bytes behind it are 0 |
| AddressGrammar.FullGapWipesTheTail | libfree/inet_pton.c:213-216 | 0:0:0:0:0:0:0::1 is accepted as the address of zeros |
| AddressMeaning.PlacesOfGroups | libfree/inet_pton.c:183-218 | the groups in front of `::` stand at the beginning of the address, those behind it at the end, zeros in between, every group as a 16-bit number with its high byte first |
| AddressMeaning.MulticastExample | libfree/inet_pton.c:140-224 | FF01::0101 is stored as ff 01, twelve zeros, 01 01 |
| InetPton.Pton4 | libfree/inet_pton.c:86-125 | the four bytes are stored exactly if the text is a dotted quad, and nothing else is touched |
| InetPton.ScanGroups | libfree/inet_pton.c:152-204 | the digit loop leaves the bytes and the place of `::` that the specification scans, and zeros from `tp` on |
| InetPton.ShiftTail | libfree/inet_pton.c:205-218 | the overlapping shift in place leaves the left bytes, zeros and the right bytes, or clears the tail of a full address |
| InetPton.Pton6 | libfree/inet_pton.c:140-224 | the address denoted is stored exactly if the text is accepted, and otherwise the target is untouched |
| InetPton.Pton | libfree/inet_pton.c:58-74 | 1, 0 and -1 for an address, no address and an unknown family |
| AddressPrinting.BestIsBest | libfree/inet_ntop.c:135-156 | the run compressed is the leftmost of the longest runs of zero words of length two or more, and there is one run of that kind at most (sections 4.2.2 and 4.2.3 of RFC 5952) |
| AddressPrinting.TextOfDenotes | libfree/inet_ntop.c:161-187 | the text that compresses any run of zero words denotes the words printed, with or without an embedded IPv4 address |
| AddressPrinting.RoundTrip | libfree/inet_ntop.c:109-198 | the text printed for any address is accepted and gives that address back |
| AddressPrinting.QuadRoundTrip | libfree/inet_ntop.c:85-101 | the same for dotted quads |
| AddressPrinting.NormalForm | libfree/inet_ntop.c:109-198 | two accepted texts mean the same address exactly if their addresses are printed alike |
| AddressFormatting.FormattedIsRendered | libfree/inet_ntop.c:161-186 | what the loop appends word by word, early exit and closing colon included, is the text of the grammar that compresses the run |
| AddressFormatting.PrintLength | libfree/inet_ntop.c:122 | an address is never printed in more than 39 characters |
| AddressMeaning.PrintedForm | libfree/inet_ntop.c:161-187 | without a dotted quad, hexadecimal numbers are printed with colons between them, and `::` for the leftmost longest run of two or more zeros |
| AddressMeaning.DottedExactly | libfree/inet_ntop.c:170-179 | the addresses printed with a dotted quad are those of twelve zero bytes and then not two more, as ::a.b.c.d, and those of ten zero bytes and ff ff, as ::ffff:a.b.c.d |
| AddressMeaning.QuadForm | libfree/inet_ntop.c:85-101 | four bytes are printed as four decimal numbers with dots between them |
| InetNtop.FindRun | libfree/inet_ntop.c:135-156 | the single pass over the words finds the leftmost longest run |
| InetNtop.Format | libfree/inet_ntop.c:158-187 | the loop stays within the 46 bytes of its buffer and writes the specified text |
| InetNtop.Ntop6 | libfree/inet_ntop.c:109-198 | text and NUL are stored exactly if they fit, and otherwise the target is untouched |
| InetNtop.Ntop4 | libfree/inet_ntop.c:85-101 | text and NUL are stored exactly if the text without the NUL fits the size, nothing behind them changes, and they stay within the size exactly if it is not the length of the text |
| InetNtop.QuadOverruns | libfree/inet_ntop.c:95 | 0.0.0.0 takes eight characters of a buffer for seven |
| InetNtop.Ntop | libfree/inet_ntop.c:55-72 | the text of either family is stored as far as its own test allows, nothing behind it changes, nothing is stored for another family, and the size is kept exactly but for that one IPv4 size |
| InetExchange.AcceptedIsCString | libfree/inet_pton.c:140-224 | no text that is accepted holds a NUL |
| InetExchange.PrintAndParse | libfree/inet_ntop.c:55-72 | what is printed for an address of either family into a buffer of 46 characters, read up to its NUL, is parsed back to that address |
| AddrSpec.PassGroup | libgai/ga_port.c:37-63 | one pass adds the new type behind the first of a group and is counted once |
| AddrSpec.PassesGroup | libgai/ga_port.c:30-65 | after passes for distinct types over flagged entries the list is one group for every entry, in the original order, and the passes together found as many as there are entries times passes |
| AddrSpec.EveryPassFinds | libgai/ga_port.c:30-65 | each of the passes found every entry once |
| AddrSpec.GroupAt | libgai/ga_port.c:37-47 | within a group the first type leads, the later ones follow newest first, each with its own port |
| AddrSpec.GroupsAt | libgai/ga_port.c:30-65 | the groups stand one behind the other, each as long as there were passes |
| AddrSpec.PassTyped | libgai/ga_port.c:44-45 | entries whose type was asked for keep their places, and take the port exactly if the service is of their type |
| AddrSpec.BothProtocols | libgai/ga_serv.c:15-57 | a service known to both protocols gives every address, in order, a stream entry and a datagram entry with their own ports |
| AddrSpec.AskedType | libgai/ga_serv.c:15-57 | for a socket type that was asked for every address takes the port that the service has for that type, and the service is refused if it has none |
| AddrSpec.OneProtocol | libgai/ga_serv.c:34-57 | without one, a name known to one protocol gives every address its entry and port, and a name known to none is no name |
| AddrSpec.OthersKeepPort | libgai/ga_port.c:48-61 | addresses of other families are given no port and not counted |
| AddrList.Clone | libgai/ga_clone.c:8-30 | the copy is a new node behind the old one with a new address block of the same content, without the flag |
| AddrList.Visit | libgai/ga_port.c:37-62 | one turn of the walk replaces one entry by what the specification makes of it and goes on behind it |
| AddrList.Port | libgai/ga_port.c:30-65 | the walk over the growing list ends, gives the specified entries in unshared nodes and blocks, and counts what the specification counts |
| AddrList.Serve | libgai/ga_serv.c:8-57 | the passes made, and the status, are those the type asked for and the answers of the service database call for |
| AddrList.Builder.Append | libgai/ga_aistruct.c:8-62 | an entry is appended behind the last one, flagged exactly if no type was asked for |
| AddrList.Lookup | libgai/ga_aistruct.c:8-62 | list and service together: without a type, the addresses of a host end up as one group each |
| Checksum.OnesSumIsReduced | libfree/in_cksum.c:27-30 | the sum with the carry brought around at every step (section 1 of RFC 1071) is the plain sum reduced once |
| Checksum.TwoFoldsReduce | libfree/in_cksum.c:27-30 | two folds reduce every 32-bit sum |
| Checksum.AddWords | libfree/in_cksum.c:16-25 | the loop, with the odd byte, adds up the words modulo 2^32 |
| Checksum.WordsAt | libfree/in_cksum.c:16-25 | a word is two bytes in the byte order of the host, and an odd byte has a zero behind it |
| Checksum.SumExample | libfree/in_cksum.c:16-30 | the sums of the example of section 3 of RFC 1071, in both byte orders |
| Checksum.InCksum | libfree/in_cksum.c:3-32 | up to 65537 words the answer is the complement of the ones' complement sum |
| Checksum.NeverWraps | libfree/in_cksum.c:7-19 | the sum of at most 65537 words fits 32 bits |
| Checksum.WrapIsHarmless | libfree/in_cksum.c:7-19 | for any number of words the answer is right exactly if the sum did not wrap, or wrapped a multiple of 65535 times without ending at 0 |
| Checksum.WrapLosesCarry | libfree/in_cksum.c:7-19 | for 65538 words of all ones the answer is wrong |
| Checksum.ChecksumVerifies | libfree/in_cksum.c:3-32 | with the answer stored in its zeroed aligned word, the checksum of the buffer is 0 |
| Checksum.SwappedSum | libfree/in_cksum.c:16-30 | swapping the bytes of every word swaps those of the sum (section 2(B) of RFC 1071) |
| Checksum.ByteOrderDoesNotMatter | libfree/in_cksum.c:3-32 | hosts of either byte order leave the same two bytes in the packet |
| RoundTripTime.RttInfo.Start | lib/rtt.c:62-67 | the seconds returned are the timeout, rounded to the nearest |
| RoundTripTime.RttInfo.Stop | lib/rtt.c:80-102 | a sample updates the estimators as specified and leaves a timeout from 2 to 60 seconds |
| RoundTripTime.RttInfo.Timeout | lib/rtt.c:111-119 | a timeout doubles without a limit, is counted, and gives up when more than three are |
| RoundTripTime.Unanswered | lib/rtt.c:56-60 | after rtt_newpack exactly three timeouts go on and every later one gives up |
| RoundTripTime.RunAll | lib/rtt.c:22-119 | a run on the structure ends in the specified estimators and timeout |
| RoundTripTime.EstimateBounds | lib/rtt.c:85-99 | over any run of samples up to M the smoothed time stays in [0, M] and the deviation in [0, max(0.75, M)] |
| RoundTripTime.Backoff | lib/rtt.c:101-119 | the timeout lies in [2, 60] after every sample and is exactly 2^j times that after j timeouts |
| RoundTripTime.ConstantSamples | lib/rtt.c:93-99 | under k constant samples the smoothed time approaches them by (7/8)^k, and the deviation follows a closed form |
| RoundTripTime.ConstantTimeouts | lib/rtt.c:10-11 | the timeout of a new timer after k samples of r seconds is r + 7ra + 3b - 8rb, with a = (7/8)^k and b = (3/4)^k, kept between 2 and 60 |
| RoundTripTime.FirstTimeout | lib/rtt.c:93-101 | after the first it is 9/8 of r and 2.25 seconds, kept so |

## Left out

- MapView.MapInfo: stops, with the outcome `NoMap`, where the built-in session number asks for a map that does not
  exist before the start.
- Framing.RecvData: stops with an outcome of its own for a length below that of the header, where the source's
  behaviour is undefined.
- Framing.ClientRecv: does the same.
- MapView.Client.MapUpdate: does the same for a reply that announces more cells than it holds.
- InetNtop.Ntop4: asks for memory behind the buffer for the one size for which the source writes there.
- InetNtop.Ntop: does the same.
- LineReader.Reader.ReadLine: asks for memory for the NUL that the source stores behind a buffer of no bytes.
- Rooms.Room.AddAction: stops, with the outcome `Overread`, for a request that announces more actions than it holds; a
  direction outside 0..3, with which the source indexes an array of four, is outside the type of an action.
- Rooms.Room.Carry: the debug output that reads the source cell before its coordinates are tested
  (`server/game.cpp:516`) is not modelled.
- Rooms.Room.Register: asks for at least one seat and one cell; a room whose number exists is refused by the list of
  rooms, which is not modelled.
- RoomRuns.RunInv: a start is given a complete shuffle and enough draws; the random devices themselves are parameters.
- RoundTripTime.EstimateBounds: floats are real numbers here, so that rounding is not covered.
- Streams.Descriptor.Read: the pieces a stream comes in are a finite script; a peer that stays silent forever is not
  modelled.
- Negative player numbers in a request: `verifySession` would read in front of the seats; player numbers are natural
  here.
- The list of rooms, its mutex and its clean-up by age: each operation is one atomic step on one room, found before.
- The mutex of a room, and the refused start that returns with it held (`server/game.cpp:242-245`).
- Overflow of ints in the map: soldiers and rounds are unbounded, and `MapInvariant.TurnBound` bounds every number of
  soldiers that a round stores.
- The replies other than the map's (room, player and error replies), and their names and messages.
- The terminal interface, the logs, the sockets and the select loop.
- The branch of `ga_aistruct` for local sockets, failed allocations, and the lookups of hosts and services, whose
  answers are parameters.
- One buffer shared by all descriptors in `readline`: the model has one reader for one descriptor.
- Time stamps and debug output of the round-trip timer.
