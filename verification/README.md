# GpsDrive: verified models of its stateful cores

This project models, in Dafny, the parts of GpsDrive whose behaviour spans many calls or many functions, and
proves what they guarantee.

* **The argument scanner** (`msvc/getopt.c`): `Getopt` defines one call as a function on the scanner's state;
  `GetoptScanner` is the C code in its own form, a class with the static variables that works in place on the
  argument vector and is proved equal to that function. `GetoptReference` is an independent one-pass reading that
  never moves an element; `GetoptRuns` relates whole runs to it, and `GetoptMeaning` says what every command line
  means, from the option string and the names of the long options alone. "--" and the order of options follow
  section 12.2 of the POSIX Base Definitions (IEEE Std 1003.1), extended by permutation.
* **The friends server** (`src/friendsd.c`): `Friendsd` has the server class over its 500-entry array and the
  function of one packet; `FriendsdPackets` says what each kind of packet leaves in the table, in terms of its words;
  `FriendsdSweep` says exactly what an expiry sweep removes; `FriendsdRuns` says what all
  packet sequences keep, and follows a message through its acknowledgements; `FriendsdMessages` finds the message behind
  every confirmation of a run, and `FriendsdHundred` has runs with one confirmation too many and one too few.
  `FriendsText` is the `sscanf` scanning.
* **The Mapnik hand-off** (`src/mapnik.cpp`): `MapnikHandoff` is a state machine whose steps each make at most one
  assignment to what the two threads share; `MapnikCalls` has the functions themselves, proved to be sequences of its
  steps. `MapnikTiles` is the snapping of tile centres to a lattice, and `MapnikChoice` says in coordinates what a call
  asks for. `MapnikExact` says when the image shown is exactly
  the one asked for, and `MapnikNames` which tiles share a file name.
* **GPX tracks** (`src/gpx.c`): `Gpx` has the writer and the reader over XML reader nodes, `GpxRoundTrip` what comes
  back from a track, `GpxFile` the same for whole files with their metadata; `GpxFields` says what the children of a
  point mean in any order, and `GpxFiles` what files with many tracks, waypoints and routes read as.
* **Coordinates** (`src/gpsmisc.c`): `Coordinates` prints and parses positions; `Decimal` is C's decimal text.
* **Geometry and view** (`src/geometry.c`, `src/gpsdrive.c`, `src/main_gui.c`, `src/map_projection.c`): `Geometry`,
  `View`, `Projection`; `Reals` has the laws of real multiplication they use.
* **The tree of POI types** (`src/poi.c`): `PoiTypes` builds it step by step; `PoiTypesTree` says what it holds,
  `PoiTypesPaths` where each row is, from the list of names alone, and `PoiTypesHash` whether the text kept in the hash
  table leads there.

Code that updates variables step by step is a class or a method with loops, tied by its `ensures` clauses to a
function; the theorems are about these functions. A `gdouble` is an exact real; conversions to `gint` truncate toward
zero (`Common.Trunc`), and so does integer division (`Common.DivC`).

## What was found

Places where the code does less than one might expect. Each is proved, with the exact condition.

* A second scan of the permuted arguments in POSIX order reports the same options exactly when it is not the case that
  an option missed its argument while arguments were left over: the rescan gives it one of those
  (`GetoptRuns.RescanAgrees`, `GetoptRuns.RescanCanDiffer`).
* A leading `-` or `+` of the option string is stepped over by the first call only; later calls accept it as an
  option letter (`GetoptRuns.OrderMarkIsAnOptionLater`, `GetoptRuns.MarkedRun`).
* The expiry sweep passes over the entry after each one it removes, so n sweeps clear the table exactly when the
  longest run of expired entries is shorter than 2^n (`FriendsdSweep.SweepsClear`).
* A confirmation with number 100 or more (the first such is the hundred-and-first) has an id with a third digit, which
  is not recognised as the server's own: its ACK makes another confirmation instead of deleting it
  (`FriendsdRuns.AckOfConfirmation`, and a run that gets there: `FriendsdHundred.OneConfirmationTooMany`).
* A confirmation names its sender only if the sender's position is the first entry with that id tail; otherwise it
  names whatever an uninitialised buffer holds (`FriendsdRuns.ConfirmationNamesSender`).
* An acknowledged id of fewer than five characters does not reach the buffer's end that is compared with the server's
  id: what an earlier ACK left there is compared. The message of such a client is deleted without a confirmation
  exactly when the last longer id in an ACK (before any, the uninitialised buffer) had the server's tail
  (`FriendsdRuns.ClientIsOwnExactlyWhen`, `FriendsdRuns.RunLeavesTail`, and a run in
  `FriendsdHundred.OneConfirmationTooFew`).
* Storing the 500th entry empties the table (`Friendsd.Server.StoreEntry`).
* The tile cache shows exact images in every interleaving if and only if no two tiles in play print the same scale and
  the same six decimals (`MapnikExact.ExactImagesExactlyWhen`, `MapnikNames.SameNameExactlyWhen`,
  `MapnikNames.NamesDistinctExactlyWhen`). Tiles of scale s never do where a degree has fewer than s * 143360 metres
  (`MapnikNames.FewMetresKeepApart`): with the slider's scales, 1000 and more, nowhere below about 89.95 degrees of
  latitude in the Mercator projection (`MapnikNames.DistinctOnSlider`), and at the equator for every scale
  (`MapnikNames.DistinctAtEquator`). Where two tiles do print alike some run shows the wrong one
  (`MapnikNames.AlikeCollide`); with the tangent of the Mercator projection at 83.6 degrees, two neighbouring tiles of
  scale 1 do (`MapnikNames.CollidesFarNorth`). A scale that small is not on the slider.
* A tile border above 256 pixels would make a fresh tile be left at once; the code's border is at most 204
  (`MapnikTiles.WiderBorderLeavesTile`, `MapnikTiles.RecentredIsKeptInEveryView`).
* A track point without any child element is written self-closing, and its reader runs on to a later point's end
  (`GpxRoundTrip.RoundTripExactlyWhen`, `GpxFile.FileRoundTripExactlyWhen`).
* A child element that closes itself as the last one of a track point, such as an empty name, makes the reader take the
  point's end tag for its text, and run on to a later point's end (`GpxFields.EndIsMissed`).
* A waypoint or route that closes itself, in front of a track, makes the reader look for a later one's end tag, and wait
  for ever if there is none (`GpxFiles.SelfClosingIsNeverLeft`).
* One GPX round trip changes a point again at the second exactly when its altitude or course rounds up to 1000, from
  which on they are not written (`GpxRoundTrip.NormalOnceIsStableExactlyWhen`; 999.9996 m in
  `GpxRoundTrip.NormalOnceIsNotStable`); a track, exactly when it has such a point or does not end with a break
  (`GpxRoundTrip.OneTripIsStableExactlyWhen`). Two trips are enough (`GpxRoundTrip.SecondRoundTripIsStable`).
* A coordinate text is refused exactly when its first digit, point or comma is a point or comma without a digit after it
  (`Coordinates.RefusedExactlyWhen`); a text without any of the three reads as 0, since `sscanf` answers EOF, which is
  not zero (`Coordinates.NothingReadsAsZero`). A text that is not refused has the value that stands for a refusal
  exactly when its degrees, minutes and seconds add up to 1002 and it has an S, a W or a minus sign
  (`Coordinates.LooksRefusedExactlyWhen`; "S1002" in `Coordinates.SouthLooksRefused`).
* The pixel round trip moves negative pixels by one (`Projection.PixelRoundTrip`); zooming out leaves the clamp, until the
  next exposure, exactly beyond an inequality on the old offsets (`View.ZoomOutKeepsClampExactlyWhen`).
* The hash table keeps 14 characters of a row's path, so a type nested deep enough is led to another row: exactly when
  the text of its place in the list does not fit (`PoiTypesHash.HashLeadsToRow`, nine names in
  `PoiTypesHash.DeepNameLeadsAstray`); up to two dots it always fits (`PoiTypesHash.TwoDotsFit`).

## Model

| member | source | states |
|---|---|---|
| `GetoptScanner.MyIndex` | msvc/getopt.c:178-190 | the loop finds the first occurrence; the null pointer is returned exactly for a character that does not occur |
| `GetoptScanner.AbbreviationRule` | msvc/getopt.c:314-318 | the documented rule for long names, both directions: option k is taken exactly when it is the first with that very name or, without an exact name, the only one abbreviated |
| `GetoptScanner.LookUp` | msvc/getopt.c:473-499 | the one-pass search with its exact, first-match and ambiguity variables returns what that rule says |
| `GetoptScanner.SwapBlocks` | msvc/getopt.c:248-253 | two disjoint blocks of argv trade places; nothing else moves |
| `GetoptScanner.ShortLowerBlock` | msvc/getopt.c:241-256 | after moving the shorter lower block, the exchange that is left to do has the same result |
| `GetoptScanner.ShortUpperBlock` | msvc/getopt.c:257-272 | the same for the shorter upper block |
| `GetoptScanner.Scanner.Exchange` | msvc/getopt.c:225-279 | for all first <= last <= optind the nested loops end with blocks A, B turned into B, A, both orders kept, nothing outside touched, and first/last describing the moved block |
| `GetoptScanner.Scanner.Initialise` | msvc/getopt.c:355-377 | the first call's state and ordering, and the option string without its mark |
| `GetoptScanner.Scanner.SkipNonOptionsInPlace` | msvc/getopt.c:381-403 | options read since are brought in front of the skipped arguments, then all plain arguments that follow are skipped |
| `GetoptScanner.Scanner.EndOptions` | msvc/getopt.c:405-425 | the element "--" joins the options, all that follows counts as skipped |
| `GetoptScanner.Scanner.StartElement` | msvc/getopt.c:379-456 | the whole block for an empty nextchar: EOF, a plain argument, or a new element's text |
| `GetoptScanner.Scanner.FoundLong` | msvc/getopt.c:510-561 | argument, flag, value and error of a long option that was found, and how far optind moves |
| `GetoptScanner.Scanner.ShortOption` | msvc/getopt.c:589-668 | one option character: unknown, without argument, with an optional or a required one, missing argument, and how far optind moves |
| `GetoptScanner.Scanner.DecodeNext` | msvc/getopt.c:458-668 | long option first, then short option, including long-only fall-through |
| `GetoptScanner.Scanner.GetoptInternal` | msvc/getopt.c:337-669 | one call in place is the specified call, for every state a previous call can leave |
| `GetoptReference.CallsMakeProgress` | msvc/getopt.c:379-668 | every call that is not EOF leaves the scanner ready and strictly shrinks the unread text, so every run reaches EOF |
| `GetoptReference.RunMeetsReference` | msvc/getopt.c:337-669 | from any state, in every ordering, a run reports what the one-pass reading reports and leaves argv as read options, options to come, skipped arguments, rest |
| `GetoptReference.GatherKeepsLayout` | msvc/getopt.c:383-389 | exchanging early or late does not change the final order |
| `GetoptReference.SkipAheadKeepsLayout` | msvc/getopt.c:391-402 | skipping plain arguments does not change the final order |
| `GetoptReference.TerminateMeets` | msvc/getopt.c:405-435 | "--" ends with it among the options and the skipped arguments before everything after it |
| `GetoptRuns.WholeRun` | msvc/getopt.c:76-78 | a run from the first call ends with argv[0], then the options with their arguments and "--", then the rest, and optind at the first of the rest |
| `GetoptRuns.ReferenceIsStablePartition` | msvc/getopt.c:144-147 | options and rest are complementary subsequences of the arguments in original order; without "--" the rest is plain arguments only |
| `GetoptRuns.OtherOrderingsReadInPlace` | msvc/getopt.c:137-154 | the other two orderings never move an element |
| `GetoptRuns.OnlyDashesStopInOrder` | msvc/getopt.c:156-158 | in RETURN_IN_ORDER mode arguments are left over only after "--" |
| `GetoptRuns.DecodeAndNextElement` | msvc/getopt.c:539-551 | what one call decodes depends on the following element only if it is taken, or missed |
| `GetoptRuns.ElementAndNextElement` | msvc/getopt.c:589-668 | the same for all reports of a cluster; a missed argument and a found one give different reports |
| `GetoptRuns.RescanAgrees` | msvc/getopt.c:337-669 | a POSIX-order scan of the permuted argv gives the same reports and optind if and only if no option missed its argument while arguments were left over |
| `GetoptRuns.RescanCanDiffer` | msvc/getopt.c:641-663 | a concrete command line for which the two scans differ |
| `GetoptRuns.ScanAll` | msvc/getopt.c:698-704 | the caller's loop over the in-place scanner terminates, and argv, optind and the reports are those of the one-pass reading |
| `GetoptRuns.OrderMarkIsAnOptionLater` | msvc/getopt.c:363-372 | an option spelled like the order mark is refused by the first call unless listed again, and accepted by every later call |
| `GetoptRuns.MarkedRun` | msvc/getopt.c:355-377 | with an order mark, a whole run reports what the first call reads without the mark and the later ones with it, and moves nothing |
| `GetoptMeaning.EveryLetterHasAKind` | msvc/getopt.c:592-617 | every character is of exactly one kind, by its first place in the option string and the colons behind it |
| `GetoptMeaning.LetterMeans` | msvc/getopt.c:589-668 | what a character means by that kind: refused, an option alone, with the rest of the element, or with the next one; and how far optind moves |
| `GetoptMeaning.LettersAreRead` | msvc/getopt.c:589-668 | a group of options, the last one with an argument attached, in the next element, or missing, is reported letter by letter |
| `GetoptMeaning.LongMeans` | msvc/getopt.c:510-561 | code, flag, index and argument of a long option, by its has_arg and by what is there |
| `GetoptMeaning.NameIsLookedUp` | msvc/getopt.c:458-586 | the text before "=" is looked up, the text behind it is the argument; ambiguous and unknown names are refused |
| `GetoptMeaning.LongOnlyFallsThrough` | msvc/getopt.c:563-586 | with long_only, a name that abbreviates no option but starts with an option letter is read by letters |
| `GetoptMeaning.ItemsAreRead` | msvc/getopt.c:337-669 | in every ordering, a list of options and operands, however spelled, is read as these options with these arguments, in order |
| `GetoptMeaning.EverySpellingIsRead` | msvc/getopt.c:76-78 | a whole run reports exactly the options and arguments that were spelled, also the wrong ones, and leaves argv as program name, options, operands |
| `GetoptMeaning.EveryCommandLineIsSpelled` | msvc/getopt.c:337-669 | without long_only every command line is such a list, so the two before cover all inputs |
| `GetoptMeaning.ServerNameIsRead` | src/friendsd.c:575 | the friends server's option string takes the text attached to -n as its argument |
| `Friendsd.Server.constructor` | src/friendsd.c:600-607 | the table that main sets up |
| `Friendsd.Server.StoreEntry` | src/friendsd.c:225-253 | find-or-insert: every entry with the id is rewritten, or one is added; the 500th empties the table; all writes stay inside the array |
| `Friendsd.Server.DeleteAt` | src/friendsd.c:328-338 | the shift loop removes exactly one entry and reads no slot outside the array |
| `Friendsd.Server.FindTail` | src/friendsd.c:345-357 | the search ends at the first entry whose id has the tail at ackid + 5, or at the end of the list |
| `Friendsd.Server.Confirm` | src/friendsd.c:343-373 | the entry is rewritten in place as a confirmation with the next number, the sender found by that search and the reader taken from the message |
| `Friendsd.Server.Acknowledge` | src/friendsd.c:304-379 | the ACK branch: what sscanf leaves in ackid, then the loop: own entry deleted and the loop left, any other one confirmed |
| `Friendsd.Server.SortOut` | src/friendsd.c:382-402 | the sweep loop with its shifts under the running index is the recursive sweep that keeps the successor of each removed entry |
| `Friendsd.Server.Receive` | src/friendsd.c:214-402 | one packet is one step of the table function, and the array bounds hold |
| `Friendsd.SweepTurn` | src/friendsd.c:384-402 | one turn of the sweep's loop, with the index advancing after a shift |
| `FriendsdPackets.PositionIsStored` | src/friendsd.c:256-301 | a position of seven words is stored under the first, as far as 200 characters go, with the number in the fifth as its time, and is too old a week after that; every other young entry stays; a query stores nothing |
| `FriendsdPackets.MessageIsStored` | src/friendsd.c:214-254 | a message is stored whole under its first word and is too old two days after it came; every other young entry stays |
| `FriendsdPackets.ShortPositionIsIgnored` | src/friendsd.c:256-266 | a position of fewer than seven words stores nothing |
| `FriendsdPackets.ShortMessageIsIgnored` | src/friendsd.c:214-221 | a message without an id, an addressee or a text stores nothing |
| `FriendsdPackets.OtherPacketIsIgnored` | src/friendsd.c:214-308 | a packet without one of the three marks leads to the sweep alone |
| `FriendsdPackets.StoringLeavesEntry` | src/friendsd.c:225-253 | storing and the sweep leave the new entry in place of all with its id, and nothing goes but what is older than a week; a table of 499 other entries is emptied |
| `FriendsdPackets.SweepKeepsYoung` | src/friendsd.c:382-402 | no sweep removes the server's own entry, nor one that is not older than a week |
| `FriendsdPackets.ConfirmationIsMade` | src/friendsd.c:304-380 | an acknowledged message becomes, word for word, a confirmation addressed to the name in the sender's position that names the message's addressee, under the next number and the server's tail |
| `FriendsdSweep.SweepRemovesAlternate` | src/friendsd.c:384-402 | the sweep removes exactly the first, third, fifth ... of every run of adjacent expired entries and keeps the others in order |
| `FriendsdSweep.RunLosesHalf` | src/friendsd.c:384-402 | a maximal run of k expired entries loses exactly ceil(k/2) |
| `FriendsdSweep.SweepKeepsFresh` | src/friendsd.c:386-394 | no entry that is fresh or the server's own is removed or reordered |
| `FriendsdSweep.SweepHalvesRuns` | src/friendsd.c:384-402 | one sweep halves the longest run of expired entries |
| `FriendsdSweep.SweepsClear` | src/friendsd.c:384-402 | n sweeps clear the table if and only if the longest run is shorter than 2^n: logarithmically many passes |
| `FriendsdSweep.MessagesLastTwoDays` | src/friendsd.c:235-238 | a message or confirmation is expired if and only if more than MAXMSGTIME has passed since it was written |
| `FriendsdRuns.InitialTableOk` | src/friendsd.c:600-607 | the first table satisfies the invariant |
| `FriendsdRuns.EveryRunKeepsOk` | src/friendsd.c:214-402 | over all packet sequences the table stays below its size and its ids stay pairwise distinct and of known kinds |
| `FriendsdRuns.MessageIdFits` | src/friendsd.c:362-368 | a confirmation's id is not cut, ends with the server's tail, and is recognised as the server's own if and only if its number is below 100 |
| `FriendsdRuns.MessageIdsDiffer` | src/friendsd.c:362-368 | different confirmations have different ids |
| `FriendsdRuns.AckNamesOne` | src/friendsd.c:309-379 | with distinct ids an ACK touches the one entry it names and nothing else: removed if what is at ackid + 5 is the server's tail, else confirmed |
| `FriendsdRuns.ClientIsOwnExactlyWhen` | src/friendsd.c:308-325 | a client's id is taken for the server's own if and only if it has fewer than five characters and an earlier ACK left the server's tail behind it |
| `FriendsdRuns.AckConfirmsMessage` | src/friendsd.c:343-373 | acknowledging a client's message turns it in place into one confirmation with a new id, and its own id is gone; in the case above it is deleted instead |
| `FriendsdRuns.RunLeavesTail` | src/friendsd.c:308 | after any run the text at ackid + 5 is the tail of the last acknowledged id of five or more characters |
| `FriendsdRuns.AckOfConfirmation` | src/friendsd.c:316-341 | the ACK of a confirmation deletes it if its number is below 100, and otherwise begets another confirmation |
| `FriendsdRuns.Number100BegetsAnother` | src/friendsd.c:362-368 | a concrete table where that happens |
| `FriendsdRuns.ConfirmationIsForSender` | src/friendsd.c:369 | the server itself parses a confirmation as a message with that id, addressed to the sender |
| `FriendsdRuns.ConfirmationNamesSender` | src/friendsd.c:345-361 | the name in a confirmation is the one in the first entry with the tail at ackid + 5 if that is a position, and the buffer's old content otherwise |
| `FriendsdRuns.AckConserves` | src/friendsd.c:309-379 | an ACK keeps "confirmations made + client messages stored" from growing if and only if it names a client's message or an entry recognised as the server's own |
| `FriendsdRuns.AcksOfMessagesConsume` | src/friendsd.c:309-379 | up to a hundred confirmations made, every ACK of a stored message is of that kind |
| `FriendsdRuns.EveryRunConserves` | src/friendsd.c:214-402 | over all runs of such packets, confirmations made plus client messages stored never exceed messages accepted |
| `FriendsdMessages.EachConfirmationHasItsMessage` | src/friendsd.c:214-402 | over all runs of such packets, confirmation n was made by an ACK of the id of an earlier SND packet whose text was stored then, and different confirmations have different SND packets: at most one confirmation per message, none from a confirmation |
| `FriendsdMessages.PacketAccounted` | src/friendsd.c:214-402 | one packet keeps that account, and every stored client message has an SND packet that has caused no confirmation |
| `FriendsdMessages.PacketsAlone` | src/friendsd.c:304-380 | conditions on the packets alone are enough: at most a hundred messages accepted, and no ACK of an id under which a position is reported |
| `FriendsdMessages.EveryConfirmationOfAHundred` | src/friendsd.c:214-402 | under them every confirmation has a message of its own, and there are no more confirmations than messages |
| `FriendsdHundred.RoundsQualify` | src/friendsd.c:214-402 | up to a hundred rounds of a message and its ACK meet these conditions, and make as many confirmations as messages: the bound is reached, whatever the buffers hold at first |
| `FriendsdHundred.OneConfirmationTooMany` | src/friendsd.c:316-368 | a run of 203 packets after which the server has made 102 confirmations for 101 messages |
| `FriendsdHundred.OneConfirmationTooFew` | src/friendsd.c:308-340 | a run of three packets in which the message of the client "c" is accepted, acknowledged, and deleted without a confirmation |
| `MapnikHandoff.StepKeepsInv` | src/mapnik.cpp:490-561 | every step of either thread keeps the hand-off invariant |
| `MapnikHandoff.EveryInterleaving` | src/mapnik.cpp:374-402 | in every interleaving the threads are never both in their write sections, the pixbuf is an image for CenterPt and ScaleDbl whenever nobody writes, and every cache entry is an image for its name |
| `MapnikHandoff.RequestIsStableAndMet` | src/mapnik.cpp:497-554 | while RenderYsn is set nothing changes the requested centre and scale; when it is cleared, exactly that is shown |
| `MapnikHandoff.RequestIsMetSoon` | src/mapnik.cpp:490-561 | a pending request is met within nine moves of the render thread, whatever the main thread does |
| `MapnikCalls.MapnikMap.TryReadTileFromCache` | src/mapnik.cpp:85-111 | a hit shows the cached image and makes the new centre and scale current; a miss changes nothing |
| `MapnikCalls.MapnikMap.AddCurrentTileToCache` | src/mapnik.cpp:116-145 | the current image is stored under the current name, and nothing else changes |
| `MapnikCalls.MapnikMap.SetMapnikMapYsn` | src/mapnik.cpp:374-402 | one whole call as a state change, for every request |
| `MapnikCalls.MapnikMap.RenderPass` | src/mapnik.cpp:497-558 | one whole turn of the render thread as a state change |
| `MapnikCalls.CallIsItsMoves` | src/mapnik.cpp:374-402 | an undisturbed call is its moves in the state machine, one after another |
| `MapnikCalls.PassIsItsMoves` | src/mapnik.cpp:497-558 | an undisturbed turn of the render thread is its moves |
| `MapnikChoice.LatticeIsLatticePoint` | src/mapnik.cpp:182-183 | the snapped point is the middle of the position's cell on a lattice 768 by 512 pixels wide, and no other point is |
| `MapnikChoice.ChosenTile` | src/mapnik.cpp:166-199 | with a border of at most 256 the chosen tile has the position in its inner part on both axes; an unforced choice keeps the old tile if and only if that has it there or is its lattice point, and is the lattice point otherwise |
| `MapnikChoice.CallInCoordinates` | src/mapnik.cpp:374-402 | the whole effect of a call, for any border, in coordinates: nothing, a tile from the cache, or a request for the position's tile |
| `MapnikChoice.EveryChangeIsAnnounced` | src/mapnik.cpp:105-107 | in every interleaving without an acknowledgement, a map that differs from the one at the start is announced by NewMapYsn |
| `MapnikChoice.AcknowledgedOnly` | src/mapnik.cpp:600-603 | an acknowledgement clears NewMapYsn and nothing else |
| `MapnikExact.ExactImagesExactlyWhen` | src/mapnik.cpp:85-145 | for calls at any set of places, in every interleaving the pixbuf shown is exactly the image for CenterPt and ScaleDbl, if and only if no two tiles in play (the lattice tiles of the places, and those found in the cache) share a file name |
| `MapnikExact.DistinctNamesSuffice` | src/mapnik.cpp:490-561 | one direction: no interleaving shows another image |
| `MapnikExact.SharedNameShowsWrongTile` | src/mapnik.cpp:93-106 | the other: for two places whose tiles differ and share a name, a run that shows the wrong one |
| `MapnikNames.SameNameExactlyWhen` | src/mapnik.cpp:96-98 | two tiles share a name if and only if they have the same scale and both coordinates print alike with six decimals |
| `MapnikNames.NamesDistinctExactlyWhen` | src/mapnik.cpp:90-98 | for any projection and any places, with a cache that holds their tiles, names are distinct if and only if no two different tiles of one scale have centres that print alike |
| `MapnikNames.KeptApartIsDistinct` | src/mapnik.cpp:90-98 | that holds for every projection that moves different tiles of one scale more than a millionth of a degree apart on an axis |
| `MapnikNames.FewMetresKeepApart` | src/mapnik.cpp:168-183 | a projection does so for tiles of scale s wherever no degree has s * 143360 metres or more |
| `MapnikNames.DistinctOnSlider` | src/gpsdrive.c:239-253 | with the slider's scales names are distinct wherever no degree has 143360000 metres or more |
| `MapnikNames.DistinctAtEquator` | src/mapnik.cpp:53 | with as many metres in every degree as the code's projection has at the equator, names are distinct for every scale |
| `MapnikNames.AlikeCollide` | src/mapnik.cpp:90-106 | for any projection and any two places of one scale whose tiles differ and print alike, some run shows the wrong tile |
| `MapnikNames.CollidesFarNorth` | src/mapnik.cpp:53 | with the tangent of the code's projection at 83.6 degrees, two neighbouring tiles of scale 1 there are such places |
| `MapnikTiles.SnapIsCellCentre` | src/mapnik.cpp:179-183 | a re-centred coordinate is the odd multiple of half a cell that belongs to the position's cell |
| `MapnikTiles.CellHoldsPosition` | src/mapnik.cpp:182-183 | the position lies in that cell, truncation toward zero included |
| `MapnikTiles.SameCentreSameCell` | src/mapnik.cpp:182-183 | two positions share a centre if and only if they lie in the same cell |
| `MapnikTiles.CellsAreDisjoint` | src/mapnik.cpp:182-183 | a position lies in exactly one cell, whatever the sign |
| `MapnikTiles.RecentredIsKept` | src/mapnik.cpp:174-188 | a new tile is within 384 and 256 pixels of the position, and with a border of at most 256 the next unforced call there keeps it |
| `MapnikTiles.RecentredIsKeptInEveryView` | src/main_gui.c:1684-1687 | every border that set_mapviewsize_cb can compute is narrow enough |
| `MapnikTiles.WiderBorderLeavesTile` | src/mapnik.cpp:174-178 | the bound of 256 is sharp |
| `Projection.PixelRoundTrip` | src/mapnik.cpp:619-644 | get_mapnik_calcxytopos then get_mapnik_calcxy, with any projection that forward undoes: the identity on non-negative pixels, one off on negative ones |
| `Projection.PixelsAreMetres` | src/mapnik.cpp:619-628 | neighbouring columns are scale * 0.00028 / zoom metres apart from west to east, and rows from north to south, around the centre |
| `Projection.ColumnIsLongitude` | src/map_projection.c:126-161 | columns are pixelfact / zoom units apart from west to east around zero_lon, up to one unit lost by the conversion |
| `Projection.ColumnRoundTrip` | src/map_projection.c:126-161 | with calcxy, the longitude axis of proj_top and proj_googlesat comes back within zoom/pixelfact + 1 below and 2*zoom/pixelfact + 1 above |
| `Projection.DegreesBack` | src/map_projection.c:225-232 | before truncation the longitude formulas are inverse up to sign |
| `Gpx.WriteTrack` | src/gpx.c:877-973 | the writer's loop with its flag j writes the specified nodes, and counts the valid points |
| `Gpx.Reader.PointTurn` | src/gpx.c:356-476 | one node of a point: a field that takes the next node's text, another node, or the end |
| `Gpx.Reader.HandlePoint` | src/gpx.c:347-484 | the point loop: fields of the child elements, the defaults, and the running on when the end tag is missing |
| `Gpx.Reader.HandleRteTrk` | src/gpx.c:505-579 | the section loop, recursive for segments: the points added in order and where the reader stands afterwards |
| `Gpx.Reader.SectionTurn` | src/gpx.c:527-578 | one node of a section, each kind of start tag separately |
| `Gpx.Reader.HandleSegment` | src/gpx.c:533-542 | a segment with content adds its points and one break; an empty one adds nothing |
| `GpxRoundTrip.RoundTrip` | src/gpx.c:866-978 | writing and reading gives the maximal runs of valid points in order, normalised, each with exactly one break after it |
| `GpxRoundTrip.RoundTripExactlyWhen` | src/gpx.c:911-964 | that holds if and only if every point is written with at least one child element |
| `GpxRoundTrip.ReadBodyIsExpected` | src/gpx.c:898-908 | leading and repeated breaks collapse; only a track that is empty or ends with a break gets an extra one |
| `GpxRoundTrip.ReadPoint` | src/gpx.c:909-967 | a written point reads back with each field rounded or defaulted as the code does |
| `GpxRoundTrip.PointsNeedEnds` | src/gpx.c:505-579 | no node stream makes the reader add more points than it passes trkpt end tags |
| `GpxRoundTrip.NormalTwiceIsStable` | src/gpx.c:916-963 | a point that went through two round trips is not changed by a third |
| `GpxRoundTrip.NormalOnceIsStableExactlyWhen` | src/gpx.c:916-963 | a second round trip changes a point if and only if its altitude is in [999.9995, 1000) or its course in [999.995, 1000), or it has no time from anywhere |
| `GpxRoundTrip.OneTripIsStableExactlyWhen` | src/gpx.c:866-978 | writing and reading what was written and read changes nothing if and only if the track ends with a break (or is empty) and no point is at such a limit |
| `GpxRoundTrip.NormalOnceIsNotStable` | src/gpx.c:916-920 | 999.9996 m comes back as 1000 and is lost at the second round trip |
| `GpxRoundTrip.SecondRoundTripIsStable` | src/gpx.c:866-978 | two round trips reach a fixed point: the third, at any clock, reads back the second with only the times of its breaks replaced |
| `GpxRoundTrip.SecondTripLength` | src/gpx.c:878-908 | a track that does not end with a break grows by exactly one at the second writing and reading, and any other keeps its length |
| `GpxFields.PointIsMeant` | src/gpx.c:347-484 | a track point means the last child of each name, in whatever order the children stand, with the defaults for the others |
| `GpxFields.SegmentIsMeant` | src/gpx.c:533-542 | a segment adds its points and one point that stands for a break, dated by the clock |
| `GpxFields.EndIsMissed` | src/gpx.c:377-445 | a self-closing child whose text is wanted takes the end tag of its point, and the point runs on; a sym does so only while there is no type |
| `GpxFields.NormalIsNear` | src/gpx.c:909-967 | writing and reading moves no field by more than half a unit of its last printed decimal, below its limit |
| `GpxFile.GpxFileRead` | src/gpx.c:636-725 | the file loop with its handlers adds exactly the specified points, or waits forever exactly when the specification says so |
| `GpxFile.HandleMetadata` | src/gpx.c:171-256 | where the metadata handler leaves the reader |
| `GpxFile.MetadataIsRead` | src/gpx.c:776-814 | the metadata block that is written is read to its end, whatever the fields hold, an empty author name included |
| `GpxFile.TrackIsRead` | src/gpx.c:682-687 | a written track is read wherever it stands, and the file loop goes on behind it |
| `GpxFile.FileRoundTripExactlyWhen` | src/gpx.c:745-978 | a written file reads back as the expected track if and only if every point has a child element, whatever its metadata |
| `GpxFiles.PartsAreRead` | src/gpx.c:635-712 | any number of tracks, with waypoints, routes, blank text and metadata of version 1.0 between them, is read as one track after another |
| `GpxFiles.FileIsRead` | src/gpx.c:635-725 | the same for whole files with a metadata block |
| `GpxFiles.SelfClosingIsNeverLeft` | src/gpx.c:643-660 | a self-closing waypoint or route without a later end tag of its kind keeps the reader from everything behind it |
| `Coordinates.Coordinate2Gchar` | src/gpsmisc.c:438-483 | for every position and mode: N, S, E or W by axis and sign; then the numbers with their decimals, widths, degree, minute and second signs; and the text parses back within 0.005 seconds, 0.0005 minutes or 0.000005 degrees, with its sign |
| `Coordinates.ReadDegMinSec` | src/gpsmisc.c:457-462 | the parser's value of a printed degree/minute/second text |
| `Coordinates.ReadDegMinDec` | src/gpsmisc.c:465-471 | the same for degrees and decimal minutes |
| `Coordinates.ReadDegDec` | src/gpsmisc.c:474-480 | the same for decimal degrees |
| `Coordinates.ScanFindsValues` | src/gpsmisc.c:515-517 | after cleaning, the scan finds exactly the numbers between any filler text |
| `Coordinates.OnlyLettersNegate` | src/gpsmisc.c:506-513 | a printed text is negative if and only if its first letter says so |
| `Coordinates.SignOfText` | src/gpsmisc.c:499-513 | a text that is not refused is negative if and only if S, s, W, w or a minus sign stands anywhere in it |
| `Coordinates.AlikeReadAlike` | src/gpsmisc.c:503-516 | commas read like points, and all other characters but digits like blanks |
| `Coordinates.RefusedExactlyWhen` | src/gpsmisc.c:515-529 | a text is refused if and only if its first digit, point or comma is a point or comma that no digit follows |
| `Coordinates.NothingReadsAsZero` | src/gpsmisc.c:517-519 | a text without digits, points and commas reads as 0 |
| `Coordinates.PointAndWord` | src/gpsmisc.c:515-529 | a lone point is refused, a word reads as 0 |
| `Coordinates.LooksRefusedExactlyWhen` | src/gpsmisc.c:496-529 | the value is the one for a refusal if and only if the text is refused, or it has an S, a W or a minus sign and degrees, minutes and seconds add up to 1002 |
| `Coordinates.SouthLooksRefused` | src/gpsmisc.c:498-519 | one such text, "S1002" |
| `Geometry.Clipt` | src/geometry.c:46-71 | [te, tl] becomes the feasible parameters of one side; false if and only if there are none |
| `Geometry.LineCrossesRectangle` | src/geometry.c:83-111 | 1 if and only if some t in [0,1] puts the segment point inside the closed rectangle, for every segment and rectangle, degenerate or inverted |
| `Geometry.ClipFourSides` | src/geometry.c:101-109 | the four nested calls accept if and only if one parameter satisfies all four sides |
| `Geometry.SquaredDistanceLinePoint` | src/geometry.c:116-138 | the squared distance is attained at a parameter in [0,1] and is no larger than at any other |
| `Geometry.SquaredAtIsDistance` | src/geometry.c:133-138 | that square is the sum of the squared differences in x and y |
| `View.MapView.SetMapviewSize` | src/main_gui.c:1668-1687 | the view is between 150 and the map's size, and at least five borders wide and high |
| `View.MapView.ZoomCb` | src/main_gui.c:618-652 | zooming doubles or halves zoom and offsets only after the old zoom was shown; the zoom stays a power of two in 1..16 |
| `View.MapView.ScrollPass` | src/gpsdrive.c:1611-1632 | one pass shifts each axis by two borders toward the zone |
| `View.MapView.ScrollToMarker` | src/gpsdrive.c:1607-1639 | the loop ends with the marker inside the border zone, and the bail-out fires if and only if the marker started more than 3998 borders outside it |
| `View.MapView.ClampOffsets` | src/gpsdrive.c:1641-1650 | both offsets are clamped |
| `View.MapView.ExposeCb` | src/gpsdrive.c:1551-1698 | one exposure as a state change: resize, scroll, clamp; the offsets end within the clamp |
| `View.SizeIsWindows` | src/main_gui.c:1668-1687 | the view has the window's size between 150 and the map's, and the border is a fifth of the smaller side |
| `View.ClampedIsNearest` | src/gpsdrive.c:1641-1650 | an offset within its limits is unchanged, any other goes to the nearer limit |
| `View.ExposureFollowsMarker` | src/gpsdrive.c:1607-1650 | an exposure brings the marker at least a border into the view unless the map's edge is reached, and scrolls nothing where it is there already |
| `View.ZoomKeepsMiddle` | src/main_gui.c:618-652 | zooming in doubles the scale around the map point in the middle of the view, zooming out halves it with less than a pixel's move, and at the last zoom or before the old one was shown nothing happens |
| `View.PassNeverOvershoots` | src/gpsdrive.c:1616-1623 | a pass never crosses to the other side, and its distance from the zone shrinks by two borders |
| `View.SettleLands` | src/gpsdrive.c:1609-1639 | n passes settle the marker if and only if it starts at most 2n borders outside |
| `View.ShownWindow` | src/gpsdrive.c:1679-1703 | after the clamp the shown window is inside the scaled map, except one column or row exactly for an odd view at the largest offset |
| `View.ZoomInKeepsClamp` | src/main_gui.c:634-636 | zooming in keeps the offsets within the clamp |
| `View.ZoomOutOvershoot` | src/main_gui.c:648-650 | zooming out leaves the clamp by at most a quarter of the view |
| `View.ZoomOutCanLeaveClamp` | src/main_gui.c:648-650 | a concrete view where it does |
| `View.ZoomOutKeepsClampExactlyWhen` | src/main_gui.c:648-650 | after zooming out the offsets are within the clamp if and only if the old ones were within twice the new limits plus one |
| `View.EveryRun` | src/gpsdrive.c:1641-1650 | over all runs of zoom and expose steps the zoom stays valid, and every exposure that shows the map shows only the map |
| `PoiTypes.TypeTree.HandleType` | src/poi.c:929-941 | the level of a type is its number of dots, and the largest level is kept |
| `PoiTypes.TypeTree.FindParentName` | src/poi.c:789-797 | the strcspn loop finds the text before the last dot |
| `PoiTypes.TypeTree.Addrow` | src/poi.c:735-761 | a row is appended under the given parent and its path entered in the hash |
| `PoiTypes.TypeTree.AddBaseTypes` | src/poi.c:858-879 | types without dots become top rows; nameless ones are put out of reach |
| `PoiTypes.TypeTree.AddLevel` | src/poi.c:884-893 | types of one level go under the first row whose name matches without regard to case |
| `PoiTypes.TypeTree.CreatePoitypeTree` | src/poi.c:829-894 | the loops build the specified tree and hash |
| `PoiTypes.FoundIsValid` | src/poi.c:888-891 | a search that succeeds leads to a row with that name |
| `PoiTypes.NotFoundIsAbsent` | src/poi.c:888-891 | a search that fails means no row has it |
| `PoiTypes.SameNameExactlyWhen` | src/poi.c:801 | two names are taken for the same if and only if they differ in the case of the 26 letters at most |
| `PoiTypesTree.AppendAdds` | src/poi.c:743 | appending adds one path and leaves every other path leading to the same row |
| `PoiTypesTree.ParentIsThere` | src/poi.c:799-814 | a type's parent is found if and only if all its dotted prefixes are in the list |
| `PoiTypesTree.NoFilterIsFirst` | src/poi.c:843-848 | the first row of every finished tree is the one for no filter, with the number -1 |
| `PoiTypesTree.FinishedTree` | src/poi.c:829-897 | with distinct names a type has a row if and only if all its dotted prefixes are in the list, and it stands under the row named by the text before its last dot |
| `PoiTypesTree.OneRowPerType` | src/poi.c:761 | every row is the one its name's index leads to, and carries its type's number: no type has two |
| `PoiTypesPaths.BuiltRanked` | src/poi.c:859-894 | every row is at the path that the order of the names gives: its place among its siblings, below the first row of its parent name |
| `PoiTypesPaths.FoundIsParent` | src/poi.c:888-891 | the search for a parent name ends at the row of the first type with it, case aside |
| `PoiTypesPaths.FoundIsFirst` | src/poi.c:888-891 | a search finds the first matching row in the order of a walk, parents before children |
| `PoiTypesHash.PathTextReads` | src/poi.c:758 | a whole path text leads back to its path |
| `PoiTypesHash.KeptPathReads` | src/poi.c:758-759 | the kept text leads back to the path if and only if it has at most 14 characters, or 15 ending in ":0" |
| `PoiTypesHash.HashLeadsToRow` | src/poi.c:758-761 | for every finished tree, the text kept for a name leads to its row if and only if the text of its place in the list of names fits |
| `PoiTypesHash.ShallowNamesFit` | src/poi.c:758-759 | a condition on depth and number of names under which it fits |
| `PoiTypesHash.TwoDotsFit` | src/poi.h:86 | with at most 1000 types, the size of the list, and two dots, every hash entry leads to its row |
| `PoiTypesHash.DeepNameLeadsAstray` | src/poi.c:758-761 | nine concrete names for which the entry of one leads to the row of another |

## Left out

* `gdouble` is an exact real: binary rounding, NaN, infinities and exponents in number texts are not modelled. Printing
  rounds half to even. The square root of `distance_line_point` is left out; equal endpoints give 0/0 in C, which the
  macros turn into parameter 0.
* Unmodelled plumbing: sockets, GTK and GDK drawing, libxml itself (a finite stream of nodes stands for it; an element
  written with an empty text still gets an end tag, one written without any content closes itself), Mapnik's
  rendering and projection (an image is named by its centre and scale; the projection is a pair of functions), files
  that cannot be read or written apart from a missing cache directory.
- GetoptRuns.WholeRun: for option strings without a leading `-` or `+`, the only ones that choose PERMUTE;
  GetoptRuns.MarkedRun has the others.
* The scanner: messages printed for `opterr` are a value of the report; `optarg`, `*longind` and `*flag` are parts of the
  report too; an option whose `val` equals EOF cannot be told from EOF in C but can here; characters are not narrowed to a
  signed `char`; `GETOPT_COMPAT` is off, as in the source; calls after EOF are not modelled.
* The friends server: replies, the `SRV:` line's text and the web output. Texts are whole C strings, so what `strncpy`
  leaves behind a 200-character text or a 30-character id, and buffers overrun by an unbounded `%s`, are not modelled:
  stored ids are at most 30 characters, and acknowledged ones fit their buffer. A stored id shorter than five characters
  has the empty tail, since `strncpy` fills up with zeros; what stands behind a short acknowledged one is modelled. The
  server id is 6 to 22 characters and does not start with `MSG`; `messagecounter` does not overflow. The clock is read
  once a packet.
- FriendsdRuns.EveryRunKeepsOk: for ids of at most 30 characters and clients that do not use the server's id tail, which
  the protocol asks for but the code does not check.
* Mapnik: reads of scale and pixbuf by the main thread while a render is pending, a second render thread, NewMapYsn as a
  lost update, and everything after the unconditional return in `set_mapnik_map_ysn`. Rendering is exact: the extent's
  centre is the requested one.
* GPX: what handlers store in `gpx_info`, the GPX_WPT and GPX_RTE modes, `add_trackpoint`'s growth of its array, and
  `g_strtod` or `atoi` on a missing text (0 here, undefined in C). The clock is one text for a whole
  reading; the code reads it anew at every break and every point without a time.
- GpxRoundTrip.SecondRoundTripIsStable: for clock texts of the first two trips that are not empty.
- GpxRoundTrip.OneTripIsStableExactlyWhen: for a clock text that is not empty.
- GpxRoundTrip.SecondTripLength: for a clock text of the first trip that is not empty.
- MapnikNames.CollidesFarNorth: for the tangent of the projection, since the model has no logarithm; within the two
  tiles it differs from the projection by far less than the sixth decimal.
- MapnikNames.DistinctOnSlider: the bound on the metres in a degree is a hypothesis. That a degree of latitude has
  111319.49 metres over the cosine of the latitude in the Mercator projection is not proved here.
* Coordinates: the size of the caller's buffer; positions beyond the range of a C int.
* View: the early returns of `expose_cb` (importing, PDA mode), drawing, and the position on the screen, which is a
  parameter.
* POI types: the tree store is a forest of rows; icons, descriptions and scales are left out. Following a path text is
  GTK's `gtk_tree_path_new_from_string`, which is not in the repository: numbers separated by colons, and 0 where nothing
  is left.
- PoiTypesTree.FinishedTree: for pairwise distinct names; names that differ only in the case of letters are covered.
* Latitude axes and `proj_map` in `src/map_projection.c`: the two directions use different radii or factors there, so they
  are not inverse.
* The friends client, configuration files, route stepping, map selection, SQL escaping, speech, and `draw_grid` are easier
  than what is here, or promise nothing that could be stated.
