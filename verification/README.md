# Verified models of TORQUE's containers, parsers and printers

A Dafny 4.11 project that models the parts of the TORQUE resource manager with the most state,
recursion or arithmetic, and proves what they promise: the indexed, linked slot array behind job
and request lists; the MXML printer, parser and escaper; the qmgr command language and its
reference-counted connections; the pbsdsh spawn/obit protocol; qsub's tokeniser and escapers; the
size and node arithmetic of qstat; and pestat's linked-list sort. `dafny verify dfyconfig.toml`
checks all of it.

The models do what the code does, edge cases included. Code that updates state is a class or a
method with loops, proved against a specification; the theorems are about the specifications. Where
a natural promise does not hold, a member says exactly when it does.

| file | models |
|---|---|
| `Common.dfy` | C strings and the scanning loops several parsers share |
| `Slots.dfy`, `ItemContainer.dfy`, `ContainerIterator.dfy` | `src/include/container.hpp` |
| `MxmlTree.dfy`, `MxmlParse.dfy`, `MxmlRoundTrip.dfy`, `MxmlMarkup.dfy` | `src/cmds/MXML.c` |
| `QmgrAttributes.dfy`, `QmgrGrammar.dfy`, `QmgrOffEnd.dfy`, `QmgrSplit.dfy`, `QmgrLoss.dfy`, `QmgrLine.dfy`, `QmgrParse.dfy`, `QmgrNames.dfy`, `QmgrPrint.dfy`, `QmgrRequest.dfy`, `QmgrFaults.dfy`, `QmgrServers.dfy` | `src/cmds/qmgr.c` |
| `Pbsdsh.dfy` | `src/cmds/pbsdsh.c` |
| `QsubArgs.dfy`, `QsubVariables.dfy` | `src/cmds/qsub_functions.c`, `src/cmds/common_cmds.c` |
| `QstatNodes.dfy`, `QstatSize.dfy` | `src/cmds/qstat.c` |
| `PestatSort.dfy` | `contrib/pestat-1.0/pestat.c` |

Results worth knowing, each proved below:

- A container is a list of distinct ids through every run of its operations, except that a
  positional insert of an id already stored, and `insert_at` at the position one past the last item,
  leave slots, links and index that represent no list. `insert_before` always answers false. Removing
  the tail leaves the sentinel's back link stale, so reverse iteration and `pop_back` are right
  exactly while that link names the tail.
- `MXMLToString` writes one byte past its buffer on certain failing calls, and never on a successful
  one. `MXMLToXString` always ends, except with an empty buffer below a positive maximum on a C library
  whose `realloc` to zero bytes returns a block; from a size that is not positive it always fails.
- Printed MXML without raw `<` in its values parses back, values stripped of leading white space and byte 14 turned into `<`, exactly
  when every name is 1 to `MMAX_LINE` - 1 characters without space or `>`, does not start with `/`, `?`
  or `!`, and does not end in `/`, and every value, leading white space aside, has at most
  `MMAX_XBUFFER` characters. It is then the tree that was printed exactly when no value starts with
  white space or holds byte 14.
- Attributes, comments and declarations make no difference to the MXML parser, but a blank in front of
  `/>` does: `<a />` is rejected.
- qmgr's attribute parser steps over the terminator exactly when the command is not `unset` and the
  list ends in a single `+` or `-` set off by white space: on `a +`, but not on `a+`, where the sign
  belongs to the name.
- qmgr follows a NULL resource on `set queue q resources_max = 5`; the requests that fault are stated
  exactly.
- After each command `get_request` keeps the whole rest of the line only when the rest is less than
  half of it. A line whose first command ends inside quotes is scanned on behind its terminator, into
  whatever an earlier line left there.
- Every qmgr input line is made of commands, `;` with white space, and perhaps a comment, and splits
  into these commands. Every request, with any of the seven verbs abbreviated or not, reads as what it
  says.
- A printed qmgr line of plain tokens reads back exactly when its piece of the value is not empty, has
  no white space or comma, does not start with a quote, is a number where qmgr wants one, and the line
  has no `;` or `#` outside quotes, at which `get_request` cuts it, as it does in a value `a#b`.
- A pbsdsh that loses an obit in a failed resubmission waits for ever; it never returns too early, and
  when it returns every task acknowledged without error has been asked for its obit and settled.
- qstat reads the `+` of `+3` as a sign, not as a separator, wherever a number may begin.

## Model

| member | source | states |
|---|---|---|
| `Slots.Pigeonhole` | src/include/container.hpp:588-616 | naming every slot from 1 to max - 1 takes at least max - 1 list entries |
| `Slots.RoomMeansFreeSlot` | src/include/container.hpp:588-626 | with `num + 1 < max` the allocator's slot lies inside the array and is empty |
| `Slots.GrowKeeps` | src/include/container.hpp:588-616 | after `check_and_resize` the invariant and the abstract list are unchanged and the next insertion lands on an empty slot inside the array |
| `Slots.OrderUnique` | src/include/container.hpp:798-819 | the list a store represents is determined by its `next` links |
| `Slots.LookFinds` | src/include/container.hpp:380-400 | an id in the index names the slot on the list that holds it |
| `Slots.IdsAreUnique` | src/include/container.hpp:239-261 | the ids of a container are distinct and each is indexed by its own slot |
| `Slots.InsertKeeps` | src/include/container.hpp:636-769 | linking a fresh id in at position k keeps chain, back links, tail, count, index and least free slot, and inserts into the abstract list at k |
| `Slots.DuplicateBreaks` | src/include/container.hpp:265-355 | inserting an id that is already stored leaves a store that represents no list |
| `Slots.InsertBeforeSentinelBreaks` | src/include/container.hpp:734-769 | inserting before slot 0, as `insert_at` does at the end position, leaves a store that represents no list |
| `Slots.RemoveKeeps` | src/include/container.hpp:798-819 | unlinking keeps the invariant, removes from the abstract list, moves `last` if the tail goes, and leaves the sentinel's back link alone |
| `Slots.SwapKeeps` | src/include/container.hpp:436-463 | exchanging two items keeps the invariant and exchanges the two list elements |
| `Slots.BlankIsEmpty` | src/include/container.hpp:486-508 | the cleared store represents the empty list |
| `Container.ItemContainer.constructor` | src/include/container.hpp:200-215 | a new container is valid and empty and its back link is good |
| `Container.ItemContainer.CheckAndResize` | src/include/container.hpp:588-616 | the array doubles exactly when it is full, old slots unchanged, new ones blank |
| `Container.ItemContainer.UpdateNextSlot` | src/include/container.hpp:620-626 | the scan stops at the first empty slot from the old position on |
| `Container.ItemContainer.InsertThing` | src/include/container.hpp:636-678 | the new slot is linked between the tail and the sentinel and becomes `last` |
| `Container.ItemContainer.InsertThingAfter` | src/include/container.hpp:687-726 | the new slot is linked behind the given one, which hands on being `last` |
| `Container.ItemContainer.InsertThingBefore` | src/include/container.hpp:734-769 | the new slot is linked before the given one and `last` is not touched |
| `Container.ItemContainer.RemoveThingFromIndex` | src/include/container.hpp:965-986 | the slot is unlinked, blanked, taken from the index and offered for reuse |
| `Container.ItemContainer.Insert` | src/include/container.hpp:239-261 | appends; an id already present is refused, or moved to the tail when replacing |
| `Container.ItemContainer.InsertAfter` | src/include/container.hpp:265-286 | inserts behind the named item; with a stored id the result represents no list |
| `Container.ItemContainer.InsertBefore` | src/include/container.hpp:335-355 | inserts before the named item and answers false; with a stored id the result represents no list |
| `Container.ItemContainer.InsertAt` | src/include/container.hpp:290-316 | inserts at a position below the count; at the count the result represents no list; elsewhere nothing changes |
| `Container.ItemContainer.Remove` | src/include/container.hpp:359-376 | removes the item with the id, if any, and nothing else |
| `Container.ItemContainer.Find` | src/include/container.hpp:380-400 | finds what a search of the plain list finds |
| `Container.ItemContainer.Pop` | src/include/container.hpp:906-932 | takes the first item |
| `Container.ItemContainer.PopBack` | src/include/container.hpp:935-961 | takes the tail exactly when the back link names it |
| `Container.ItemContainer.Swap` | src/include/container.hpp:436-463 | exchanges two different stored items, else changes nothing |
| `Container.ItemContainer.Clear` | src/include/container.hpp:486-508 | empties the container and makes the back link good |
| `Container.Perform` | src/include/container.hpp:239-508 | each allowed call answers and acts as on a plain list with a back-link flag; any other, pop_back apart, leaves a store that represents no list |
| `Container.Run` | src/include/container.hpp:239-508 | over every run of allowed calls, container and answers are those of the plain list, back link included |
| `Container.PopBackAfterRemovingTail` | src/include/container.hpp:935-961 | popping from the back right after removing the tail always meets an empty slot |
| `ContainerIterator.AheadStep` | src/include/container.hpp:1000-1043 | following `next` or `prev` from a slot takes the head off what lies ahead of it |
| `ContainerIterator.StartAhead` | src/include/container.hpp:1048-1058 | forward, everything lies ahead of a new iterator; in reverse, exactly when the back link is good |
| `ContainerIterator.AheadAfterRemoval` | src/include/container.hpp:798-819 | removing an item behind the cursor, in either direction, leaves what is ahead unchanged |
| `ContainerIterator.ItemIterator.constructor` | src/include/container.hpp:1048-1058 | a new iterator has the whole list pending, reversed exactly when the back link is good |
| `ContainerIterator.ItemIterator.GetNextItem` | src/include/container.hpp:107-154 | returns the head of what is pending, then NULL for ever |
| `ContainerIterator.Drain` | src/include/container.hpp:104-197 | running to the end returns the pending values once each, in order |
| `ContainerIterator.RemoveBehind` | src/include/container.hpp:104-197 | removing an item already returned, forward or in reverse, does not disturb what is pending |
| `ContainerIterator.RemovePending` | src/include/container.hpp:798-819 | removing the pending item under the cursor ends the iteration at once; removing a later one only drops it |
| `ContainerIterator.Sweep` | src/include/container.hpp:104-197 | a sweep that removes chosen items as they are returned still returns every item once, in order, and leaves exactly the others |
| `MxmlPrint.ToString` | src/cmds/MXML.c:812-1031 | success is exactly `Fits`; then the buffer holds the print and its terminator; nothing outside the buffer changes except the one byte behind it, exactly on an overrun |
| `MxmlPrint.FitsNeedsRoom` | src/cmds/MXML.c:812-1031 | a successful call had room for text and terminator and did not overrun |
| `MxmlPrint.RoomFits` | src/cmds/MXML.c:812-1031 | print length plus `MMAX_NAME` bytes always suffice |
| `MxmlPrint.FitsMonotone` | src/cmds/MXML.c:812-1031 | success is monotone in the buffer size |
| `MxmlPrint.ToXString` | src/cmds/MXML.c:730-807 | unless it is stuck the loop ends, giving up when `realloc` fails, and succeeds exactly when it starts with a positive size and the largest size it may reach suffices |
| `MxmlPrint.EnoughRoomSucceeds` | src/cmds/MXML.c:730-807 | from a positive start it succeeds whenever the start or the maximum reaches print length plus `MMAX_NAME` |
| `MxmlPrint.StuckForEver` | src/cmds/MXML.c:730-807 | with an element, an empty buffer below the maximum and a `realloc` that keeps zero bytes, no number of rounds succeeds or gives up |
| `MxmlPrint.NegativeGivesUp` | src/cmds/MXML.c:730-807 | a negative size is given up after one round |
| `MxmlPrint.EndsExactly` | src/cmds/MXML.c:730-807 | the loop ends if and only if it is not in that one case |
| `MxmlPrint.OverrunExample` | src/cmds/MXML.c:812-1031 | a name of 62 characters and one child overrun a buffer of 64 bytes |
| `MxmlParse.FromString` | src/cmds/MXML.c:1328-1738 | the recursive descent computes the parse function, error and out-of-text cases included |
| `MxmlMarkup.TagRead` | src/cmds/MXML.c:1511-1592 | a tag with any attributes is read as the same tag without them: the element goes on behind the `>`, or ends at the `/>` behind an attribute |
| `MxmlMarkup.BlankBeforeSlash` | src/cmds/MXML.c:1511-1545 | a blank in front of `/>` in a tag without attributes makes the element rejected |
| `MxmlMarkup.MetasRead` | src/cmds/MXML.c:1384-1440 | any comments and declarations in front of an element make no difference to what is read |
| `MxmlMarkup.OtherMarkup` | src/cmds/MXML.c:1384-1440 | a `<!` that opens no comment is rejected |
| `MxmlRoundTrip.ParsePrint` | src/cmds/MXML.c:1328-1738 | a printed tree with good names and values, anywhere in a text, parses to the received tree with the tail just behind it |
| `MxmlRoundTrip.NamesExact` | src/cmds/MXML.c:1328-1738 | if the printed text parses to the received tree then every name is good |
| `MxmlRoundTrip.ParsedBounded` | src/cmds/MXML.c:1328-1738 | whatever the text, no value of a parsed tree exceeds the value buffer |
| `MxmlRoundTrip.RoundTrip` | src/cmds/MXML.c:812-1738 | for every tree without raw `<` in its values, prefix and suffix the round trip holds if and only if all names are good and all values, leading white space aside, fit the value buffer |
| `MxmlRoundTrip.ReceivedExact` | src/cmds/MXML.c:1328-1738 | the received tree is the original, NULL names, empty values and NULL children normalised, exactly when every value is plain |
| `MxmlEscape.SetVal` | src/cmds/MXML.c:492-666 | the growing-buffer loop produces the escaped text |
| `MxmlEscape.UnescapeEscape` | src/cmds/MXML.c:492-666 | un-escaping the five entities of section 4.6 of XML 1.0 recovers every text |
| `MxmlEscape.EscapeHasNoTag` | src/cmds/MXML.c:492-666 | escaped text holds no raw `<`, `>` or quote |
| `MxmlEscape.EscapePlain` | src/cmds/MXML.c:492-666 | a text without the five characters is not changed |
| `MxmlEscape.ReceivedText` | src/cmds/MXML.c:492-1738 | for every text, what the receiver un-escapes is the text without leading white space and with byte 14 as `<` |
| `MxmlMessage.EscapingInvisible` | src/cmds/MXML.c:492-1738 | for every tree of texts, escaping before and un-escaping after are invisible to the receiver |
| `MxmlMessage.Delivered` | src/cmds/MXML.c:492-1738 | a tree of texts, escaped, printed, parsed and un-escaped, is received in full with the tail at the suffix if and only if its names are good and its escaped texts fit; it is then the original exactly when all texts are plain |
| `QmgrAttributes.Attributes` | src/cmds/qmgr.c:330-589 | the one-cursor scanner computes the parse function, return codes and list order included |
| `QmgrGrammar.ItemsComplete` | src/cmds/qmgr.c:330-589 | every well-written list, whatever its spacing and quoting, is read as its attributes, last first |
| `QmgrGrammar.ItemsSound` | src/cmds/qmgr.c:330-589 | every accepted text is a well-written list with the attributes returned |
| `QmgrGrammar.AcceptsExactly` | src/cmds/qmgr.c:330-589 | return code 0 exactly on blank texts and well-written lists, whose meaning is unambiguous |
| `QmgrGrammar.ErrorOffset` | src/cmds/qmgr.c:330-589 | a syntax error yields an offset from 1 to the length plus 1, never 0 |
| `QmgrOffEnd.OperatorOver` | src/cmds/qmgr.c:330-589 | reading an operator runs over the terminator exactly on a single `+` or `-`, unless unsetting |
| `QmgrOffEnd.RunsOffExactly` | src/cmds/qmgr.c:330-589 | the parser runs off the end if and only if the command is not unset and the list is complete attributes followed by one that ends in white space and a single sign |
| `QmgrOffEnd.SignExamples` | src/cmds/qmgr.c:330-589 | `a +` runs off the end, `a+` is rejected at offset 2 |
| `QmgrSplit.LineBuffer.CopyCommand` | src/cmds/qmgr.c:1928-2033 | whatever lies behind the terminator, the scan stops where `Scan` says, or runs out of the buffer, and the request is the text up to there |
| `QmgrSplit.LineBuffer.Shift` | src/cmds/qmgr.c:1928-2033 | the overlapping copy followed by clearing keeps the text from any position, cut to what fits in front of itself, and leaves only NULs behind it |
| `QmgrSplit.LineBuffer.NextCommand` | src/cmds/qmgr.c:1928-2033 | one call on any terminated buffer: the command returned, the text kept, and when the scan runs out of the buffer |
| `QmgrSplit.DrainLine` | src/cmds/qmgr.c:1928-2033 | for every content of the buffer the calls end and return `Drained`; for a line whose first command is closed that is `Returned`, whatever lies behind the terminator |
| `QmgrSplit.DrainedClosed` | src/cmds/qmgr.c:1928-2033 | a line whose first command is closed is split as `Returned` says, whatever lies behind the terminator |
| `QmgrSplit.DrainedOpen` | src/cmds/qmgr.c:1928-2033 | a line that ends inside quotes is returned whole and the scan goes on behind the terminator, harmlessly if a NUL follows |
| `QmgrSplit.StaleExample` | src/cmds/qmgr.c:1928-2033 | behind an open quote the rest of an older line becomes a command |
| `QmgrSplit.KeptExact` | src/cmds/qmgr.c:1928-2033 | a step keeps the whole rest if and only if the rest is less than half the line |
| `QmgrSplit.ReturnedExact` | src/cmds/qmgr.c:1928-2033 | when every rest is less than half, the calls return exactly the commands |
| `QmgrSplit.NothingElseLost` | src/cmds/qmgr.c:1928-2033 | a command, `;`, white space and the rest make up the line |
| `QmgrSplit.CommandsWhole` | src/cmds/qmgr.c:1928-2033 | no command of the split holds an unquoted separator, and all but the last have their quotes closed |
| `QmgrSplit.TruncationExample` | src/cmds/qmgr.c:1928-2033 | the second command of `l;p s` is cut to `p` |
| `QmgrLoss.PrefixCommands` | src/cmds/qmgr.c:1928-2033 | a prefix of a line has the line's commands if and only if it reaches the end of the last one |
| `QmgrLoss.ReturnedExactly` | src/cmds/qmgr.c:1928-2033 | for every line the calls return exactly its commands if and only if each step keeps what the remaining commands need |
| `QmgrLine.CommandsOfLine` | src/cmds/qmgr.c:1928-2033 | a line written as commands of bare characters and quoted runs, with `;` and white space between them and perhaps a `#` comment, a `;` or an open quote at the end, has exactly these commands |
| `QmgrLine.EveryLineIsWritten` | src/cmds/qmgr.c:1928-2033 | every text is such a line |
| `QmgrLine.ReturnedOfLine` | src/cmds/qmgr.c:1928-2033 | the calls return the commands of a line of one command, comment and all, and of one whose text halves at each `;` |
| `QmgrLine.DrainWritten` | src/cmds/qmgr.c:1928-2033 | so does calling get_request on a buffer with such a line, whatever lies behind the terminator |
| `QmgrParse.RequestWords` | src/cmds/qmgr.c:2994-3044 | the word loop of parse_request splits off at most three words and reports an overlong one |
| `QmgrParse.CheckNames` | src/cmds/qmgr.c:824-904 | the loop of check_list computes its error position |
| `QmgrParse.CheckListExact` | src/cmds/qmgr.c:824-904 | check_list returns 0 exactly on the empty list and on comma lists of names that start well and do not end in their only `@` |
| `QmgrNames.CommaList` | src/cmds/qmgr.c:1682-1783 | the loop of commalist2objname makes the specs in order |
| `QmgrNames.OneSpecPerName` | src/cmds/qmgr.c:1682-1783 | on every list check_list accepts, one objname is made per name between commas, with the object and the server that name gives |
| `QmgrNames.PlacedName` | src/cmds/qmgr.c:1682-1783 | `obj@svr` means the default server exactly for the beginnings of `default`, the active ones exactly for those of `active`, else the server named |
| `QmgrNames.BareName` | src/cmds/qmgr.c:1682-1783 | a server without `@` stands for itself, `default` at the end of the list for the default one, and other objects for the active servers |
| `QmgrPrint.Display` | src/cmds/qmgr.c:1042-1099 | the format mode of display prints, for one attribute, one line per comma piece, and none exactly when the attribute cannot be set |
| `QmgrPrint.JoinPieces` | src/cmds/qmgr.c:1042-1099 | the pieces joined with commas are the value |
| `QmgrPrint.LineReads` | src/cmds/qmgr.c:2300-2491 | parse reads a printed line of plain tokens as the command it stands for if and only if its piece is readable; an empty piece is a syntax error |
| `QmgrRequest.VerbExactly` | src/cmds/qmgr.c:2358-2373 | a word that is not empty stands for a command if and only if it begins the command's name; the empty one for `create` |
| `QmgrRequest.NounExactly` | src/cmds/qmgr.c:2400-2407 | the same for object types |
| `QmgrRequest.NumericExactly` | src/cmds/qmgr.c:2241-2267 | the number check passes, fails or follows a NULL resource exactly as the digits, the attribute and its resource say |
| `QmgrRequest.RequestReads` | src/cmds/qmgr.c:2300-2491 | for all seven commands, verb, object type, names and attributes, with any white space and abbreviation, read as exactly that request with its names and its attributes |
| `QmgrRequest.VerbRefused` | src/cmds/qmgr.c:2374-2391 | a first word that begins no command asks for help, ends qmgr, or is error 1 |
| `QmgrRequest.NounMissing` | src/cmds/qmgr.c:2393-2398 | a verb alone is error 2 |
| `QmgrRequest.NounRefused` | src/cmds/qmgr.c:2400-2416 | a second word that begins no object type is error 2 |
| `QmgrRequest.NamesRefused` | src/cmds/qmgr.c:2418-2441 | a third word that is no attribute and holds a name that is not well formed is error 3 |
| `QmgrRequest.AttrsRefused` | src/cmds/qmgr.c:2446-2487 | attributes missing on `set` or `unset`, given on `active`, or badly written are error 4 |
| `QmgrRequest.LoglevelSet` | src/cmds/qmgr.c:2334-2351 | a set of `loglevel` on the server, in its four spellings, is rewritten to `log_level` and what follows the `=` |
| `QmgrPrint.LinePasses` | src/cmds/qmgr.c:1928-2491 | a printed line of plain tokens comes through get_request as one command and is read as what it stands for if and only if its piece is readable and it has no separator outside quotes |
| `QmgrPrint.SeparatorCuts` | src/cmds/qmgr.c:1928-2033 | in a line without quotes any `;` or `#` in the piece cuts it |
| `QmgrPrint.HashExample` | src/cmds/qmgr.c:1928-2033 | the piece `a#b` is readable, and its line is cut |
| `QmgrPrint.PrintReplays` | src/cmds/qmgr.c:1042-1099 | feeding the lines printed for a value through get_request, parse and execution sets that attribute of that object to the value, whatever it was, and changes nothing else |
| `QmgrPrint.LineIsOneCommand` | src/cmds/qmgr.c:1928-2033 | a line without `;` and `#` passes get_request in one piece |
| `QmgrPrint.NoValueFails` | src/cmds/qmgr.c:1042-1099 | an attribute without a value prints as a line that parse rejects |
| `QmgrFaults.RewriteThrows` | src/cmds/qmgr.c:2300-2491 | the loglevel rewriting throws exactly when loglevel is set without `=` |
| `QmgrFaults.FaultsExactly` | src/cmds/qmgr.c:2300-2491 | a request faults if and only if that happens, its attribute list is cut short after a sign, or it sets a queue's last attribute to a limit without a resource |
| `QmgrFaults.BareLimitFaults` | src/cmds/qmgr.c:2241-2267 | assigning any raw value to a queue's resources_max or resources_min without a resource faults |
| `QmgrFaults.FaultExample` | src/cmds/qmgr.c:2241-2267 | `set queue q resources_max = 5` faults |
| `QmgrPrint.EmptyPieceFails` | src/cmds/qmgr.c:1042-1099 | an empty piece prints as an attribute list that is rejected |
| `QmgrServers.Qmgr.FindServer` | src/cmds/qmgr.c:2574-2588 | returns a listed server of that name, and NULL only if there is none |
| `QmgrServers.Qmgr.Disconnect` | src/cmds/qmgr.c:2621-2654 | takes an unreferenced server off the list; no objname points at it |
| `QmgrServers.Qmgr.CloseNonRefServers` | src/cmds/qmgr.c:2945-2965 | closes exactly the servers without references, and every objname still points at a listed server |
| `QmgrServers.Qmgr.ConnectServers` | src/cmds/qmgr.c:716-767 | counts never fall below the pointers, and stay exact when the names had no server before; success gives each a server of its name; connecting one keeps the limit |
| `QmgrServers.Qmgr.ConnectOne` | src/cmds/qmgr.c:671-697 | a connection puts one new, counted server of that name in front of the list, and a failure changes nothing |
| `QmgrServers.Qmgr.FreeObjName` | src/cmds/qmgr.c:2689-2710 | frees one objname and keeps the counts |
| `QmgrServers.Qmgr.FreeList` | src/cmds/qmgr.c:2548-2562 | frees a list of objnames and keeps the counts |
| `QmgrServers.Qmgr.SetTemp` | src/cmds/qmgr.c:2903-2935 | re-points the static temporary and keeps the counts |
| `QmgrServers.Qmgr.NewObjNames` | src/cmds/qmgr.c:1682-1783 | makes fresh objnames, each counted at a listed server of its server name, or there is none |
| `QmgrServers.Qmgr.SetActiveServers` | src/cmds/qmgr.c:1200-1342 | either all names have servers and become active and the old list is freed, or the new list is freed |
| `QmgrServers.Qmgr.FindOrConnect` | src/cmds/qmgr.c:1215-1236 | without an error a name keeps its server or gets one listed under its object name or connected under its server name |
| `QmgrServers.Qmgr.SetActiveObjects` | src/cmds/qmgr.c:1200-1342 | on success every name with a server part has a server, the new list becomes active and the old one is freed; on an error the new names stay allocated |
| `QmgrServers.Qmgr.AskServer` | src/cmds/qmgr.c:1454-1588 | one request at one server, connected first if need be, keeps counts and limit; the error afterwards is the earlier one or a failure, and no failure is dropped |
| `QmgrServers.Qmgr.AskServers` | src/cmds/qmgr.c:1454-1590 | the servers of a list are asked in turn, up to the one the command is abandoned at; no error is dropped when all are connected, and none is made up |
| `QmgrServers.Qmgr.AskAll` | src/cmds/qmgr.c:1447-1592 | with everything connected the requests are, in order, each object at its own server or at each active one, or a beginning of these when abandoned |
| `QmgrServers.Qmgr.SetActive` | src/cmds/qmgr.c:1200-1342 | on success with names the active list of that kind becomes these names, and the other two are unchanged; without names or on an error no list changes |
| `QmgrServers.Qmgr.Execute` | src/cmds/qmgr.c:1369-1598 | keeps every count and the connection limit; changes the three lists of active objects as `Activated` says; a command that does not set active objects makes the planned requests, reports an error exactly as they failed, and frees every name it made, even when abandoned half way |
| `QmgrServers.Qmgr.Start` | src/cmds/qmgr.c:200-212 | connecting the servers of the command line and making them active establishes the counts, and without an error they are the active ones |
| `QmgrServers.Qmgr.Run` | src/cmds/qmgr.c:195-260 | over every run of commands each listed server counts exactly the live objnames pointing at it, the limit is kept, the active objects are those the successful commands set, and with `-a` the run ends at the first error |
| `Pbsdsh.ObitCell` | src/cmds/pbsdsh.c:113-154 | storing a fresh obit id keeps ids unique and every pending event in a cell |
| `Pbsdsh.SpawnCell` | src/cmds/pbsdsh.c:1352-1382 | storing a fresh spawn id keeps ids unique and every pending event in a cell |
| `Pbsdsh.Located` | src/cmds/pbsdsh.c:226-385 | a delivered event stands in a cell, and the other pending ones still do |
| `Pbsdsh.Program.ObitSubmit` | src/cmds/pbsdsh.c:113-154 | one obit more is outstanding exactly when the request succeeds with a real event |
| `Pbsdsh.TaskManager.Poll` | src/cmds/pbsdsh.c:266-289 | an event delivered leaves one task to be asked about, or none: the one just acknowledged without error, or the one whose obit had a system error |
| `Pbsdsh.Program.OnSpawn` | src/cmds/pbsdsh.c:293-328 | the obit of the task is asked for exactly when the spawn was acknowledged without error, and the spawn moves from the one counter to the other if an obit is registered |
| `Pbsdsh.Program.OnObit` | src/cmds/pbsdsh.c:329-378 | an obit lowers `nobits` and clears the task and its cell, except that TM_ESYSTEM asks again and leaves them |
| `Pbsdsh.Program.Dispatch` | src/cmds/pbsdsh.c:291-380 | the scan over all tasks treats each event once; 2 * nspawned + nobits strictly decreases on every event without a TM_ESYSTEM resubmission |
| `Pbsdsh.Program.WaitForTask` | src/cmds/pbsdsh.c:226-385 | for any behaviour of the task manager and any number of polls: `nspawned` is the number of unacknowledged spawns; it returns only with no spawn and no obit pending and every task acknowledged without error settled, its obit delivered, refused, or answered with the null or error event; it waits without one only after a failed resubmission, and then for ever; deliveries are bounded |
| `Pbsdsh.Program.SpawnOne` | src/cmds/pbsdsh.c:1352-1382 | an accepted spawn is counted, a refused one is not |
| `Pbsdsh.Program.SpawnAll` | src/cmds/pbsdsh.c:1352-1382 | the spawn loop asks for a spawn on each node in turn, with nothing pending before each when one at a time, else waiting once at the end, and ends with nothing pending and every task settled |
| `PbsdshHosts.UniqueHostList` | src/cmds/pbsdsh.c:493-514 | compacts the node list in place to the first node of each run of equal host names |
| `PbsdshHosts.SameHosts` | src/cmds/pbsdsh.c:493-514 | no host is lost |
| `PbsdshHosts.UniqueExactly` | src/cmds/pbsdsh.c:493-514 | the hosts left are distinct if and only if the node file lists each host in one block |
| `QsubArgs.MakeArgv` | src/cmds/qsub_functions.c:1520-1641 | the scanner over the reused buffer yields "qsub" and the words of the line; unmatched quote and trailing backslash are told apart; every word is in bounds |
| `QsubQuoting.Complete` | src/cmds/qsub_functions.c:1520-1641 | words written with any mixture of plain, escaped and quoted parts, separated by white space, are read back |
| `QsubQuoting.Sound` | src/cmds/qsub_functions.c:1520-1641 | every accepted line is such a writing of the words returned |
| `QsubQuoting.AcceptsExactly` | src/cmds/qsub_functions.c:1520-1641 | make_argv succeeds on exactly the written lines |
| `QsubQuoting.OffEndExactly` | src/cmds/qsub_functions.c:1520-1641 | it steps over the terminator on exactly the lines that break off after a backslash |
| `QsubQuoting.UnmatchedExactly` | src/cmds/qsub_functions.c:1520-1641 | it exits on exactly the lines that break off inside quotes |
| `QsubQuoting.AnyWords` | src/cmds/qsub_functions.c:1520-1641 | every list of words, empty ones included, can be written and is read back |
| `QsubVariables.AddEnvValueToString` | src/cmds/common_cmds.c:34-65 | the one-pass escaper appends the escaped value |
| `QsubVariables.CopyEnvValue` | src/cmds/common_cmds.c:71-123 | the two-pass escaper yields the same text, terminated, in an exact allocation |
| `QsubVariables.EscapeLength` | src/cmds/common_cmds.c:71-123 | the escaped length is the length plus the number of special characters |
| `QsubVariables.UnescapeEscape` | src/cmds/common_cmds.c:34-123 | un-escaping recovers every value |
| `QsubVariables.EscapeGuards` | src/cmds/common_cmds.c:34-123 | no quote, backslash, newline or comma is left without a backslash, and a value is unchanged exactly when it has none of these |
| `QsubVariables.AddVariableList` | src/cmds/qsub_functions.c:4268-4333 | builds the -v value, a comma and the comma-joined pairs; text and terminator fill the allocation exactly, except that an empty table gets one byte too few |
| `QsubVariables.SplitJoin` | src/cmds/qsub_functions.c:4268-4333 | joined parts split back at unescaped commas if and only if none has such a comma itself |
| `QsubVariables.ListSplits` | src/cmds/qsub_functions.c:4268-4333 | the list splits back into its pairs if and only if every comma in a name is escaped, whatever the values |
| `QsubVariables.PrefixSplits` | src/cmds/qsub_functions.c:4268-4333 | a -v value in front keeps its own parts and leaves the others alone if and only if it does not end in a lone backslash |
| `QsubVariables.Delivered` | src/cmds/qsub_functions.c:4268-4333 | when the commas in names are escaped, list, split and decode give back every name and value if and only if no name holds `=` |
| `QstatNodes.ReadNodeSpec` | src/cmds/qstat.c:705-731 | the property loop stops at the first ppn; a product above INT_MAX counts as 1 |
| `QstatNodes.GetTasks` | src/cmds/qstat.c:735-753 | with 32-bit wrap-around the result is the sum over the specs, or 0 when that exceeds INT_MAX; the cursor always advances |
| `QstatPlain.TokenCat` | src/cmds/qstat.c:669-685 | a field reads as its number, 1 if it is no integer in range, and the cursor stops behind it |
| `QstatPlain.PropsCat` | src/cmds/qstat.c:689-731 | the property loop finds the first ppn and stays inside the spec |
| `QstatPlain.SpecCat` | src/cmds/qstat.c:705-731 | a spec between two `+` counts its number times its first ppn and the cursor stops at the second `+` |
| `QstatPlain.StopsAtPlus` | src/cmds/qstat.c:705-731 | the cursor stops at the next `+` if and only if that `+` cannot be the sign of an expected number |
| `QstatPlain.SumIsTotal` | src/cmds/qstat.c:735-753 | without such a sign the count is the plain total over the `+`-separated specs |
| `QstatPlain.SignExample` | src/cmds/qstat.c:735-753 | `+3` counts 3, where the plain reading is 4 |
| `QstatPlain.CoincidenceExample` | src/cmds/qstat.c:735-753 | `2:ppn=+2` counts 4 with its sign and 4 without, so the total alone does not tell whether a sign was taken |
| `QstatSize.ConvertExactly` | src/cmds/qstat.c:587-665 | for every unit, word flag and target the result is the least number of target units covering the size if and only if nothing is shifted out of 64 bits |
| `QstatSize.NeverUnder` | src/cmds/qstat.c:587-665 | the size is never under-reported if and only if nothing is shifted out |
| `QstatSize.Monotone` | src/cmds/qstat.c:587-665 | while nothing is shifted out of 64 bits, a larger size is never shown as a smaller one |
| `QstatSize.WrapExample` | src/cmds/qstat.c:587-665 | beyond that the order is lost: the largest number of bytes shows as 0mb, one byte as 1mb |
| `QstatSize.SizeText` | src/cmds/qstat.c:587-665 | white space, an optional sign, digits and a suffix are read as value, unit and word flag, and the first option asked for decides the target |
| `QstatSize.SizeShown` | src/cmds/qstat.c:587-665 | a number of b, kb, mb, gb, tb, w, kw, mw, gw or tw is shown as the least number of the units asked for that covers it if and only if it does not overflow 64 bits on the way |
| `PestatSort.SortStats` | contrib/pestat-1.0/pestat.c:406-449 | relinks every non-empty acyclic list into its stable insertion sort, and terminates |
| `PestatSort.SortedIsSorted` | contrib/pestat-1.0/pestat.c:406-449 | that sort is ordered, has exactly the same nodes, and keeps the order of equal keys |

## Left out

- Container locking, the `exit_called` paths, `int` overflow of the size and allocation failure: the lock is held, the container is in use, memory is there.
- `insert_first`, and private container helpers that nothing calls: easy members beside the inserts modelled.
- Container slots are a sequence field rather than an array, because the array is replaced when it doubles.
- MXML attributes: `MXMLSetAttr` returns before storing into a table that starts empty, so trees have none; the parser's skipping of attributes is modelled.
- MXML nodes are values: `MXMLCreateE`, `MXMLAddE` and the node updates of the parser build trees functionally, without aliasing.
- MxmlPrint.ToXString: does not model `int` overflow of the doubled size; allocating a positive size succeeds, a negative one fails, and zero bytes is a parameter; its precondition is that the loop ends at all.
- QmgrAttributes.Attributes: reading on behind the terminator ends in the outcome `OffEnd`, since what is there is not part of the text.
- QmgrSplit.LineBuffer.Shift: the overlapping `strcpy` is taken as a forward byte copy.
- The half of `get_request` that reads and joins input lines, and prompts.
- `parse`, `is_attr` and the help texts: `parse` is given as functions over the loops modelled; attribute tables are a parameter.
- QmgrPrint.PrintReplays: what the server makes of `=` and `+=` (`Assigned`: replace, or append behind a comma) is an assumption; its code is not part of this model.
- QmgrServers.Qmgr.ConnectOne: does not model the crash of connecting a name without a server part, such as `x@active`, when the connection succeeds and a NULL name is copied; a call that survives has failed.
- QmgrRequest.RequestReads: for requests without the word `loglevel`, which is rewritten first.
- Linked lists of servers and objnames are sequences; whether a connection, a request or an object check succeeds is left open.
- qmgr's `clean_up` and the reset in `main`, which drop the server list while objnames still refer to it.
- The task manager library is any behaviour that issues new event ids and delivers each pending event at most once; delivery itself is not promised.
- `mom_reconnect` in pbsdsh, which may register obits that `nobits` never counted; the signal path is an exit.
- Pbsdsh.Program.WaitForTask: watched for any finite number of polls, because the task manager may stay silent for ever.
- QsubVariables.AddVariableList: the table iterated is the one counted, as in every call.
- QstatNodes.GetTasks: signed overflow is taken as 32-bit wrap-around.
- QstatSize.SizeShown: for numbers that fit a `long`; larger ones are cut to its limit, as `SizeText` says.
- QstatSize.SizeText: the decimal output and its buffer are not modelled; the byte behind the terminator, which the code reads when the number ends the text, is a parameter.
- The key of pestat's nodes, the number behind the fourth character of the name, is a field.
- qstat's layout, qsub's script and file handling, the single-purpose commands, and libraries whose code is elsewhere.
