# OpenSER core: a model in Dafny

OpenSER is a SIP proxy. This project models the parts of it that keep state and rewrite
messages, and proves what they promise, for all inputs and all runs. Each module follows one
component; objects the program updates in place are classes, and each of their methods is
proved against a function or a relation on values, about which the properties are then proved.

* **Message rewriting** (`LumpText`, `LumpModel`, `LumpList`, `Rewrite`, `SipMessage`,
  `Decimal`). Edits to a received message are *lumps*: deletions and anchors at an offset, with
  chains of text before and after. One pass computes the new length and repairs overlapping
  deletions in place, another writes the bytes. The passes agree byte for byte; what is written
  is the original without the union of the deletions, each insertion behind exactly the
  surviving bytes below its offset; and the Content-Length line gives the body bytes written.
* **Local replies** (`ReplyBuilder`). The list of reply lumps, and a reply built from a request
  in a length pass and a write pass, with the bookmark on the To tag.
* **TCP framing** (`TcpScan`, `TcpGrammar`, `TcpFramer`, `TcpReader`). The resumable header
  scanner and the read loop around it. For every stream and every way of cutting it into reads
  the messages handed over and the final status are those of a byte-at-a-time reference; the
  reference is tied to a grammar of messages stated on text, which says exactly how a stream
  comes apart and when the buffer overruns.
* **TCP reader processes** (`IoWait`, `TcpChild`). Connection list, descriptor hash and poll
  array always describe the same set, each connection received is listed or given back, and a
  poll round handles exactly the descriptors a function of the array says.
* **Routing scripts** (`Script`, `ScriptRunner`, `ScriptLaws`). The mutually recursive
  interpreter ends for every script, restores its recursion counters, and stops at the element
  that asks for it; lists may be run in pieces, and dead code may be cut.
* **Blacklists** (`BlacklistLock`, `Blacklist`). The hand-made reader/writer protocol over all
  interleavings, and the rule lists sorted by expiry.
* **MD5** (`Md5`). Streaming equals the one-shot digest of sections 3.1 and 3.2 of RFC 1321,
  the block function being a parameter.
* **Substitutions** (`Subst`), **NAPTR and SRV records** (`Naptr`), **timers** (`Timer`) and
  **escape codecs** (`Escape`).

Text is a sequence of characters, integers are unbounded, and the 32-bit and 64-bit wrap-around
of the program is written out (`Words.Wrap`) where it can matter. Linked lists are sequences of
nodes; node addresses are kept where the program compares pointers. Parsers, `regexec`, module
functions, pseudo-variables, the socket calls and the clock are parameters: functions with a
stated contract, or values that stand for the outcome of a call.

## Where the code differs from what it means to do

These are proved of the code as it is; each item names its statement.

* `del_lump` checks `offset + len` in 32 bits. A deletion that wraps around is accepted; the
  list stays within the message exactly if the sum does not wrap (`SipMsg.DelLump`; a deletion
  that wraps in `WrappedDeletion`).
* A relayed 503 becomes 500 by a patch at the offset the status code has in the original. That
  is right exactly if as many bytes are written in front of the digit as stood there, or if the
  digit is deleted and the byte at its offset is 0 already (`Rewrite.PatchExactly`,
  `SipMsg.BuildReply`). If all edits are anchored behind the code this means that no text is
  queued in front of all offsets (`PatchBehind`); text on an anchor at offset 0 moves the code
  too (`AnchorInFront`). The edits may also leave the message too short: the patch is inside the
  buffer exactly if the new length is not below the offset (`RenderReply`, `NothingToPatch`).
* `insert_*_lump_before` puts the newest text first in the chain before a lump
  (`LumpList.InsertBefore`).
* The block guard of `MD5Update` computes `i + 63` in 32 bits. `UpdateFits` says exactly for
  which calls the loop ends where it should; all updates shorter than 2^32 - 64 are among them
  (`Md5.ShortUpdatesFit`, `Md5.LongUpdateRunsOver`; a call that is not in
  `Md5.LongestUpdateRunsOver`).
* A reader of a blacklist takes the read side only if the head has no flags at all, because
  `!flags & BL_READONLY_LIST` negates first. Readers and writers exclude each other in every run
  exactly if the flags are 0 or the list is read-only (`ExclusionByFlags`).
* `!head->flags & BL_DO_EXPIRE` never holds, so lists that do not expire grow in front
  (`PermanentListsGrowInFront`).
* `reload_permanent_list` moves on twice per turn when it frees the old rules. It frees every
  other one, and follows a null pointer exactly if their number is odd (`Head.Reload`,
  `EveryOtherIsHalf`).
* `io_watch_add` erases the entry it refuses to overwrite; exactly then hash and array disagree.
  It checks no descriptor but -1 against the size of its hash (`Handler.WatchAdd`; a descriptor
  added twice in `Handler.WatchTwice`).
* A connection that arrives while it is listed is given back, but stays listed, if it is first
  in the list; exactly then, or without a descriptor, a listed connection is not watched.
  Anywhere else in the list it is linked a second time, and a list to which a member is added
  again never ends (`Child.Receive`, `TcpChild.ListAddExactly`).
* After a handler removes its descriptor the poll array closes up under the loop index, so the
  next entry waits for the next round. All ready descriptors are handled exactly if no removed
  one stands directly in front of a ready one (`TcpChild.AllHandledExactly`; two ready
  connections in `TcpChild.SecondWaits`).
* An error route that runs after `return` clears the RETURN flag, so the list goes on behind the
  `return`. `ReturnStopsExactly` says when a `return` stops its list, `ReturnRunsOn` gives a
  top-level run that goes on.
* `while` evaluates its condition before it looks at the flags the body left. A `return` in the
  body stays a RETURN in the last turn allowed. Otherwise it becomes an EXIT exactly if the
  condition, evaluated from the state the body leaves, drops or leaves a flag set
  (`ReturnInWhileExactly` with `WhileExits`; both sides in `ReturnInWhileBothWays`). A condition
  that calls a route clears RETURN, and the loop goes on (`ConditionClearsReturn`).
* The bound check on route numbers admits the number one past the table; it is the only number
  admitted outside (`TableAccessExactly`).
* `parse_repl` checks its table of 100 only after escapes. A write falls outside exactly if
  there are more than 100 tokens and the one in the last slot is a specifier
  (`OverTableExactly`; 101 or more specifiers in `SpecifiersLeaveTable`).
* `replace_build` checks every copy into its buffer of 1024 but the last. What is written fits
  exactly if the replacement does (`ReplaceBuild`; an input in `PlainTextLeavesBuffer`).
* A second timer's expiry is computed in 32 bits. It is called once per period exactly until its
  last due time below 2^32; from then on it is called on every tick, until the clock wraps
  around and all begins anew (`OncePerPeriodExactly`, `TicksRunning`, `Process.Run`).
* `UTIMER_TICK` is an unparenthesised product; the multiple of the two clocks still comes out
  as 10 (`Process.Run` counts with it).
* The comment of `escape_user` lists `/` as a character that needs no escape; the code escapes
  it, and so does `EscapeUser`.

## Model

| member | source | states |
|---|---|---|
| `LumpText.SubstAgrees` | msg_translator.c:521-1016 | for every substitution kind and address family the length counted is the length of the text written |
| `LumpText.ChainAgrees` | msg_translator.c:672-766 | counted and written lengths agree for whole insertion chains, conditions included |
| `LumpModel.FixInBounds` | msg_translator.c:720-739 | repairing overlaps keeps every lump inside the message |
| `LumpModel.FixSorted` | msg_translator.c:720-739 | repaired lists are sorted and no lump starts inside an earlier deletion |
| `LumpModel.FixIdempotent` | msg_translator.c:672-766 | a second length pass changes neither the list nor the length |
| `LumpModel.FixStart` | msg_translator.c:672-766 | starting the pass at 0 or at the end of the rewritten URI makes no difference |
| `LumpModel.FixAppend` | msg_translator.c:720-739 | repairing header and body lists one after the other repairs their concatenation |
| `LumpModel.PassesAgree` | msg_translator.c:511-1182 | bytes written by the write pass are the bytes consumed plus the length change computed by the length pass |
| `LumpModel.IgnoresOnlyAtStart` | msg_translator.c:1108-1117 | after repair the "overlapped, ignoring" branch is taken if and only if an edit lies before the start of the copy |
| `LumpModel.EmitAppend` | msg_translator.c:1030-1182 | writing a concatenated list is writing the two lists one after the other |
| `LumpModel.EmitMeans` | msg_translator.c:1030-1182 | induction step of the meaning: the rest written from any lump on is the surviving text with the insertions woven in |
| `LumpModel.ListMeans` | msg_translator.c:1030-1182 | repaired and written, a sorted list means: the original without the union of deletions, each insertion behind the surviving bytes below its offset |
| `LumpModel.RepairKeepsMeaning` | msg_translator.c:720-739 | repairing overlaps does not change what a list means |
| `LumpModel.FrontTextMeans` | data_lump.c:86-105 | a text lump put first in a list writes its text first, then what the list wrote |
| `LumpModel.BackTextMeans` | data_lump.c:58-80 | a text lump put last in a list writes its text behind all edits and in front of the bytes that survive from the last anchored one on |
| `LumpList.SlotKeepsOrder` | data_lump.c:311-319 | the place found for a lump is the only one of its kind and keeps the list sorted |
| `LumpList.LinkedAt` | data_lump.c:311-319 | linking by offset inserts at that place |
| `LumpList.LumpList.AppendNew` | data_lump.c:58-80 | the new text lump is last: its text comes out behind all edits of the list, in front of the bytes that survive from the last anchored one on, and nothing else changes; the list stays sorted and in bounds |
| `LumpList.LumpList.InsertNew` | data_lump.c:86-105 | the new text lump is first: its text comes out in front of everything else and nothing else changes; the list stays sorted and in bounds |
| `LumpList.LumpList.InsertAfter` | data_lump.c:111-236 | the chain after one lump grows at the given place and nothing else changes |
| `LumpList.LumpList.InsertBefore` | data_lump.c:137-263 | the chain before one lump grows at the given place and nothing else changes |
| `LumpList.LumpList.InsertSorted` | data_lump.c:369-378 | the loop links at the sorted place; sorted lists stay sorted |
| `LumpList.LumpList.CountChain` | msg_translator.c:672-766 | wrapping sum of the chain's lengths |
| `LumpList.LumpList.CountLump` | msg_translator.c:713-761 | one lump is repaired and its length change added, modulo 2^32 |
| `LumpList.LumpList.LumpsLen` | msg_translator.c:511-766 | the list becomes its repaired form and the result is the exact length change modulo 2^32 |
| `LumpList.LumpList.WriteChain` | msg_translator.c:773-1016 | writes exactly the chain's text behind what is in the buffer |
| `LumpList.LumpList.WriteLump` | msg_translator.c:1041-1182 | writes exactly one lump's text |
| `LumpList.LumpList.ProcessLumps` | msg_translator.c:1030-1182 | writes exactly the list applied to the original, and returns how far it read |
| `Decimal.NumeralValue` | msg_translator.c:402-435 | the printed length reads back as the same number |
| `Rewrite.OutputLength` | msg_translator.c:1517-1551 | URI copy, both write passes and tail together have exactly the computed new length |
| `Rewrite.OutputMeans` | msg_translator.c:1517-1551 | two passes and the tail write the meaning of both lists together |
| `Rewrite.BodyRepairKeepsMeaning` | msg_translator.c:1429-1433 | repairing the body list beforehand does not change what header and body edits mean together |
| `Rewrite.OutputSplits` | msg_translator.c:1547-1551 | the output is a header part and the edited body, whose length is the old one plus the body's change |
| `Rewrite.HeaderPartContains` | msg_translator.c:1188-1278 | a line queued in the header list is found in the header part |
| `Rewrite.ContentLengthIsRight` | msg_translator.c:402-435 | the queued Content-Length line states the number of body bytes written |
| `Rewrite.ByteComesOut` | msg_translator.c:1030-1182 | a byte that is not deleted comes out once, behind exactly the bytes `Ahead` counts, and changing it changes no other byte of the output |
| `Rewrite.PatchExactly` | msg_translator.c:1629-1631 | for every sorted list: patching a byte of the output at its offset in the original gives the rewriting of the patched message if and only if as many bytes are written in front of it as stood there, or it is deleted and the byte found there needs no change |
| `Rewrite.PatchBehind` | msg_translator.c:1629-1631 | when all edits are anchored behind the byte, the patch hits if and only if no text is queued in front of all offsets |
| `Rewrite.AnchorInFront` | msg_translator.c:1629-1631 | text on an anchor at offset 0 makes the patch miss, for every message and byte |
| `Rewrite.NothingToPatch` | msg_translator.c:1629-1631 | a message deleted as a whole leaves no byte to patch |
| `SipMessage.PathZones` | msg_translator.c:1396-1401 | queueing the Path keeps header edits ahead of the body |
| `SipMessage.ClenZones` | msg_translator.c:1188-1278 | queueing the Content-Length line keeps header edits ahead of the body and the line is carried |
| `SipMessage.ViaZones` | msg_translator.c:1465-1514 | queueing Via, received and rport keeps header edits ahead of the body and loses no carried line |
| `SipMessage.SipMsg.constructor` | data_lump.c:272-379 | a received message starts with two empty lists |
| `SipMessage.SipMsg.Link` | data_lump.c:305-319 | the offset chooses the header or the body list and the lump is linked there |
| `SipMessage.SipMsg.DelLump` | data_lump.c:272-320 | refusal exactly on the offset checks; else the lump is linked, and lists stay inside the message if and only if offset + len does not wrap |
| `SipMessage.WrappedDeletion` | data_lump.c:272-320 | a deletion of 2^32 - 1 bytes from byte 1 on passes the checks of every message and reaches past its end |
| `SipMessage.SipMsg.AnchorLump` | data_lump.c:329-379 | refusal exactly on the offset check; else the anchor is linked by offset |
| `SipMessage.SipMsg.AdjustClen` | msg_translator.c:1188-1278 | a line is queued exactly when one is needed, with the body length after its edits |
| `SipMessage.SipMsg.AddViaLumps` | msg_translator.c:1465-1514 | the Via line and the received and rport parameters are queued at their places |
| `SipMessage.SipMsg.AddRequestLumps` | msg_translator.c:1396-1514 | the edits queued for a forwarded request, and the body's length change |
| `SipMessage.SipMsg.MeasureBody` | msg_translator.c:1429-1433 | measuring the body list repairs it without changing its length change |
| `SipMessage.SipMsg.Render` | msg_translator.c:1516-1553 | the buffer of the computed length is filled exactly with what the queued edits mean |
| `SipMessage.SipMsg.NewLength` | msg_translator.c:1516-1525 | unsigned additions whose wrap-arounds cancel give the exact length |
| `SipMessage.SipMsg.HeadAndBody` | msg_translator.c:1517-1551 | the meaning of the queued edits splits into a head and the edited body, and a carried Content-Length line in the head fits that body |
| `SipMessage.SipMsg.BuildRequest` | msg_translator.c:1342-1553 | end to end: the forwarded request is the rewritten URI and the meaning of all edits as they were queued, Path, Content-Length and Via among them; it splits into a head and the edited body, and its Content-Length line, whenever called for, gives the body bytes written |
| `SipMessage.SipMsg.AddReplyLumps` | msg_translator.c:1597-1608 | the edits queued for a forwarded reply: Content-Length and removal of the first Via |
| `SipMessage.SipMsg.RenderReply` | msg_translator.c:1610-1637 | the bytes written, for 503 with the patched one; they are the meaning of the edits on the original with 503 turned into 500 if and only if the patch hits; it stays in the buffer if and only if the message is long enough |
| `SipMessage.SipMsg.BuildReply` | msg_translator.c:1573-1637 | end to end for replies, edits as they were queued: head, edited body and a fitting Content-Length line, exactly when the 503 patch gives this reply and when it stays in the buffer |
| `ReplyBuilder.ReplyLumps.Add` | data_lump_rpl.c:38-94 | refusal exactly on bad flags, empty text or a second body; lists stay well formed |
| `ReplyBuilder.ReplyLumps.Unlink` | data_lump_rpl.c:109-128 | the lump at an address is taken out, the order of the others kept; an address that is not in the list changes nothing |
| `ReplyBuilder.ReplyLumps.DeleteNonShm` | data_lump_rpl.c:130-150 | exactly the lumps in shared memory remain, in order |
| `ReplyBuilder.LumpsAgree` | msg_translator.c:1738-1743 | counting every lump once is counting the header lumps and the body |
| `ReplyBuilder.HeaderAgrees` | msg_translator.c:1698-1737 | length added for a header is the length written, plus the rport cut taken off beforehand |
| `ReplyBuilder.HeadersAgree` | msg_translator.c:1698-1737 | the same for the whole header list, the cut counted once |
| `ReplyBuilder.PassesAgree` | msg_translator.c:1681-1906 | the computed length is exactly the length of the reply written |
| `ReplyBuilder.CodeValue` | msg_translator.c:1777-1780 | the three digits written read back as the status code |
| `ReplyBuilder.BodyIsAnnounced` | msg_translator.c:1884-1903 | the reply ends in an empty line and the body, and its Content-Length line reads as the body's length |
| `ReplyBuilder.HeaderIn` | msg_translator.c:1786-1872 | each copied header stands in the reply where the ones before it end |
| `ReplyBuilder.MarkFindsTag` | msg_translator.c:1830-1862 | the bookmark points at the To tag in the finished reply |
| `ReplyBuilder.MarkSet` | msg_translator.c:1830-1862 | the bookmark is set if and only if the To header of the reply has a tag |
| `ReplyBuilder.ComputeLength` | msg_translator.c:1681-1761 | the unsigned sum equals the length modulo 2^32, and the last body lump is found |
| `ReplyBuilder.WriteVia` | msg_translator.c:1790-1824 | writes the Via header with its rport replaced or added, received, and a line end |
| `ReplyBuilder.WriteTo` | msg_translator.c:1830-1867 | writes the To header with its tag replaced, added or copied, and sets the bookmark |
| `ReplyBuilder.WriteHeaders` | msg_translator.c:1786-1872 | the loop writes exactly the headers a reply keeps |
| `ReplyBuilder.Build` | msg_translator.c:1644-1906 | the buffer holds exactly the reply and its terminator, the returned length is exact, the bookmark finds the tag |
| `TcpScan.BodyBulk` | tcp_read.c:192-201 | consuming body bytes in bulk equals consuming them one at a time |
| `TcpScan.SkipBulk` | tcp_read.c:203-213 | jumping to the next line feed equals skipping byte by byte |
| `TcpGrammar.NameStep` | tcp_read.c:263-320 | after every byte the scanner is inside the header name exactly as far as the text since the line start matches it |
| `TcpGrammar.ValueStep` | tcp_read.c:322-377 | after every byte the scanner is in the value exactly if the text is, with its digits modulo 2^32 |
| `TcpGrammar.StepTracks` | tcp_read.c:215-377 | the scanner's state says exactly what the text read so far is, and the headers end exactly at an empty line |
| `TcpGrammar.FirstTracks` | tcp_read.c:270-294 | the same for the first byte of a message |
| `TcpFramer.FeedAppend` | tcp_read.c:391-529 | the reference framer may be fed in pieces |
| `TcpFramer.BytesConserved` | tcp_read.c:456-517 | skipped white space, delivered messages and the kept bytes are together exactly the bytes read |
| `TcpFramer.OverrunExactly` | tcp_read.c:78-114 | from any open state, an overrun is raised if and only if at some point an unfinished frame fills the buffer and another byte comes |
| `TcpFramer.FeedFramed` | tcp_read.c:127-387 | a message of the grammar is delivered as it is |
| `TcpFramer.StreamRoundTrip` | tcp_read.c:391-529 | a stream of messages, with white space between, is delivered as exactly these messages |
| `TcpFramer.OpenExactly` | tcp_read.c:391-529 | the connection is open after a stream if and only if the stream is accepted messages and then an incomplete one the buffer can hold, and there is only one way to take it apart so |
| `TcpFramer.OverrunOnStream` | tcp_read.c:78-114 | an overrun is raised if and only if the stream is accepted messages, then a buffer full of bytes that hold no complete message, then at least one byte |
| `TcpFramer.NoLengthOnStream` | tcp_read.c:456-480 | the connection is closed for a missing length if and only if the stream is accepted messages, blanks, and a header block without a Content-Length |
| `TcpFramer.RejectedOnStream` | tcp_read.c:484-500 | a message is refused if and only if the stream is accepted messages and then a framed one that receive_msg does not accept |
| `TcpReader.FeedRun` | tcp_read.c:127-387 | scanning a chunk at once equals feeding its bytes to the reference |
| `TcpReader.TcpConn.Read` | tcp_read.c:78-114 | new bytes go behind the parsed ones |
| `TcpReader.TcpConn.Parse` | tcp_read.c:127-387 | the loop with its bulk steps ends in the state and place of the byte-wise run |
| `TcpReader.TcpConn.Compact` | tcp_read.c:502-515 | unparsed bytes move to the front and nothing else is kept |
| `TcpReader.TcpConn.HandOver` | tcp_read.c:490-500 | the message from its start to the parse position is handed over |
| `TcpReader.TcpConn.Round` | tcp_read.c:416-517 | one turn of the again loop equals feeding the buffered bytes, or goes round with fewer bytes left |
| `TcpReader.TcpConn.Process` | tcp_read.c:416-517 | the loop ends and equals feeding all buffered bytes |
| `TcpReader.TcpConn.ReadReq` | tcp_read.c:391-529 | one read event equals feeding its bytes to the reference, with the same errors |
| `TcpReader.Serve` | tcp_read.c:391-529 | for every stream and every cutting into reads, deliveries and status are those of the reference |
| `Script.RunActions` | action.c:94-125 | ends for every script, cyclic routes included, and both recursion counters return to their entry values |
| `Script.RunList` | action.c:141-181 | as above for an action list with its error routes |
| `Script.DoWhile` | action.c:736-780 | as above for loops, bounded by max_while_loops |
| `Script.EvalExpr` | route.c:1347-1395 | as above for expressions, which may run actions |
| `Script.ActionsKept` | action.c:94-125 | EXIT and DROP are never cleared, DROP implies EXIT, no element starts in an activation after EXIT was set in it; a route clears RETURN |
| `Script.ErrorKept` | action.c:165-175 | the same for error routes |
| `Script.ListKept` | action.c:141-181 | the same for an action list |
| `Script.ActionKept` | action.c:280-993 | the same for every control-flow action |
| `Script.IfKept` | action.c:703-735 | the same for if |
| `Script.WhileKept` | action.c:736-780 | the same for while |
| `Script.CasesKept` | action.c:781-847 | the same for switch |
| `Script.AssignKept` | action.c:212-275 | the same for assignments |
| `Script.ExprKept` | route.c:1347-1395 | the same for expressions |
| `Script.BodyKept` | route.c:1068-1214 | the same for expression elements that run actions |
| `Script.TopRouteKept` | action.c:185-208 | a top-level run restores the caller's flags and level |
| `ScriptRunner.Runner.constructor` | action.c:82-86 | an interpreter starts with clear flags and level 0 |
| `ScriptRunner.Runner.RunActions` | action.c:94-125 | the interpreter on mutable globals computes what the function says |
| `ScriptRunner.Runner.RunActionList` | action.c:141-181 | the list loop on mutable globals computes what the function says |
| `ScriptRunner.Runner.AfterError` | action.c:165-175 | error handling on mutable globals computes what the function says |
| `ScriptRunner.Runner.Do` | action.c:280-993 | one action on mutable globals computes what the function says |
| `ScriptRunner.Runner.RunIf` | action.c:703-735 | likewise for if |
| `ScriptRunner.Runner.RunWhile` | action.c:736-780 | likewise for the while loop |
| `ScriptRunner.Runner.RunCases` | action.c:781-847 | likewise for the case loop |
| `ScriptRunner.Runner.RunAssign` | action.c:212-275 | likewise for assignment |
| `ScriptRunner.Runner.EvalE` | route.c:1347-1395 | likewise for expressions |
| `ScriptRunner.Runner.RunTopRoute` | action.c:185-208 | likewise for a top-level run |
| `ScriptLaws.RunsInPieces` | action.c:141-181 | running a list is running its first part and, unless that stopped, the rest |
| `ScriptLaws.DeadAfterExit` | action.c:308-318 | cutting off everything behind exit or drop changes no run |
| `ScriptLaws.ReturnStopsExactly` | action.c:162-178 | return stops its list, whatever follows, if and only if its number is 0, EXIT was set, no error is pending, the level is exhausted, or the error route sets EXIT |
| `ScriptLaws.DeadAfterReturn` | action.c:162-178 | cutting off what is behind return changes no run without an error pending |
| `ScriptLaws.ReturnRunsOn` | action.c:162-178 | a top-level run reports DROP from a drop behind a return, because the error route cleared the flag |
| `ScriptLaws.ZeroExits` | action.c:162-178 | a list that ends with result 0 has set EXIT |
| `ScriptLaws.ReturnInWhileExactly` | action.c:736-780 | a return in the body of a while stays a return in the last turn allowed; else the loop ends with result 0 if and only if the condition, evaluated from the state the body leaves, drops or leaves a flag set, and goes on if it clears RETURN |
| `ScriptLaws.WhileExits` | action.c:736-780 | connects `ReturnInWhileExactly` with the list around the loop: a loop is an EXIT for its list if and only if it ends with EXIT set or with result 0 |
| `ScriptLaws.ReturnInWhileBothWays` | action.c:736-780 | one loop that ends in RETURN and no EXIT when allowed one turn, and in EXIT when allowed more |
| `ScriptLaws.ConditionClearsReturn` | action.c:736-780 | a condition that runs a route clears a pending RETURN |
| `ScriptLaws.TableAccessExactly` | action.c:483-489 | reads the check off: a route number outside it is refused; inside it its entry is run, which lies in the table if and only if the number is not the size of the table |
| `Md5.DecodeEncode` | md5.c:290-312 | decoding undoes encoding, for every list of words |
| `Md5.EncodeDecode` | md5.c:290-312 | encoding undoes decoding, for every string of whole words |
| `Md5.PaddedLength` | md5.c:180-187 | the padding fills up to whole blocks |
| `Md5.IndexFromCount` | md5.c:134-135 | the buffer index read off the low count word is the message length modulo 64 |
| `Md5.CountStep` | md5.c:137-142 | the two count words with their carry hold 8 times the length modulo 2^64 |
| `Md5.GuardStops` | md5.c:153-154 | past the last whole block the guard computed in 32 bits still holds if and only if it wraps |
| `Md5.ShortUpdatesFit` | md5.c:153-154 | updates shorter than 2^32 - 64 end at the last whole block |
| `Md5.LongUpdateRunsOver` | md5.c:153-154 | for the other updates the guard wraps at a block boundary inside the input |
| `Md5.LongestUpdateRunsOver` | md5.c:153-154 | the longest update behind a single byte is not handled |
| `Md5.Context.constructor` | md5.c:112-121 | a new context holds the empty message |
| `Md5.Context.AddCount` | md5.c:137-142 | the count words stay 8 times the length modulo 2^64 |
| `Md5.Context.Update` | md5.c:130-165 | a context that holds a message then holds it with the input appended: state, count and buffered tail |
| `Md5.Context.Blocks` | md5.c:153-154 | the block loop folds all whole blocks and stops at the last boundary |
| `Md5.Context.Encode` | md5.c:290-300 | writes the words low byte first |
| `Md5.Context.Pad` | md5.c:177-187 | padding and length complete the last block of the padded message |
| `Md5.Context.Final` | md5.c:172-195 | the digest is the fold over the padded message, and the context is cleared |
| `Md5.Hash` | md5.c:130-195 | for every split of a message into updates the result is the one-shot digest |
| `BlacklistLock.StepLock` | blacklists.c:525-568 | every step of every process keeps the lock with at most one holder |
| `BlacklistLock.StepWrite` | blacklists.c:525-568 | every step keeps count_write at 1 exactly while one process has claimed it |
| `BlacklistLock.StepRead` | blacklists.c:611-654 | every step keeps count_read the number of counted readers, and 0 once a writer has drained them |
| `BlacklistLock.StepInv` | blacklists.c:252-271 | every step keeps the whole invariant, although count_write is cleared without the lock |
| `BlacklistLock.FlaglessRuns` | blacklists.c:611-654 | in every state of every run over a list without flags readers and writers exclude each other |
| `BlacklistLock.ReadOnlyRuns` | blacklists.c:500-504 | nobody ever writes a read-only list |
| `BlacklistLock.UnguardedRun` | blacklists.c:623-652 | for any other flags there is a run in which a reader meets a writer |
| `BlacklistLock.GuardsByFlags` | blacklists.c:623-652 | the read side is taken if and only if there are no flags |
| `BlacklistLock.ExclusionByFlags` | blacklists.c:525-654 | exclusion holds in all runs if and only if the flags are 0 or the list is read-only |
| `Blacklist.SameKeyEquivalence` | blacklists.c:420-425 | the duplicate test is an equivalence |
| `Blacklist.IpClassCompare` | blacklists.c:322-337 | 1 exactly if both networks mask to the same words, -1 exactly across families |
| `Blacklist.Find` | blacklists.c:419-428 | found if and only if the list has an equal rule |
| `Blacklist.FreshFacts` | blacklists.c:412-448 | what rm_dups leaves is free of duplicates, in itself and with the head, and nothing else is lost |
| `Blacklist.MergeAtBounds` | blacklists.c:543-565 | a block goes where everything before expires no later and everything after no earlier |
| `Blacklist.MergeKeeps` | blacklists.c:490-571 | adding a list keeps the head sorted and free of duplicates, loses no rule, and every new rule is present |
| `Blacklist.AliveIsSuffix` | blacklists.c:273-294 | cutting off the front of a sorted list removes exactly what has expired |
| `Blacklist.AliveKeeps` | blacklists.c:252-306 | after expiry the list is sorted, free of duplicates and holds exactly the rules that expire later |
| `Blacklist.RunKeeps` | blacklists.c:252-571 | after every run of additions and expiries the list is sorted and free of duplicates |
| `Blacklist.PermanentListsGrowInFront` | blacklists.c:546-553 | the append branch is never taken; lists that do not expire take new rules in front |
| `Blacklist.Chain.AddRule` | blacklists.c:341-408 | appended exactly if no equal rule is there; an empty body counts as none |
| `Blacklist.Chain.RemoveDups` | blacklists.c:412-448 | in-place unlinking leaves exactly the rules the head lacks, with a correct last pointer |
| `Blacklist.Head.constructor` | blacklists.c:156-210 | a head starts valid with the collected rules |
| `Blacklist.Head.AddList` | blacklists.c:490-571 | refusal exactly on the four checks; else the merge of both lists, or with truncation the new list alone, valid and with a correct last pointer; truncation goes wrong if and only if the head holds an odd number of rules |
| `Blacklist.Head.Insert` | blacklists.c:533-565 | duplicates are removed and the rest is linked: the head is the merge of both lists |
| `Blacklist.Head.Reload` | blacklists.c:450-483 | the head takes over the new list and frees every other old rule, if and only if their number is even |
| `Blacklist.EveryOtherIsHalf` | blacklists.c:450-483 | of an even number of rules half are freed |
| `Blacklist.Head.Splice` | blacklists.c:543-565 | the branches and the search loop link the block at the merge position |
| `Blacklist.Head.DeleteExpired` | blacklists.c:252-306 | exactly the rules with a later expiry remain, with a correct last pointer |
| `IoWait.Handler.constructor` | io_wait.h:150-158 | nothing is watched at first |
| `IoWait.Handler.WatchAdd` | io_wait.h:252-451 | success exactly for a free entry, room and flags set; hash and array stay in step if and only if the entry was not in use; the look-up stays in the hash if and only if the descriptor does |
| `IoWait.Handler.WatchTwice` | io_wait.h:252-451 | a descriptor added twice leaves hash and array in disagreement |
| `IoWait.Handler.WatchDel` | io_wait.h:467-609 | success exactly for a used entry; the array closes up and stays in step with the hash |
| `IoWait.Handler.Position` | io_wait.h:472-476 | the position of the descriptor, given or searched for |
| `IoWait.Handler.CloseUp` | io_wait.h:477-480 | the entries behind move up by one |
| `TcpChild.OneSet` | tcp_read.c:703-838 | the watched descriptors are the main socket and those of the listed connections, each once |
| `TcpChild.ListAddExactly` | tcp_conn.h:152-159 | linking a connection in front leaves a list with an end if and only if it was not in the list |
| `TcpChild.AllHandledExactly` | io_wait.h:634-650 | every ready descriptor is handled in the round if and only if no removed entry stands directly in front of a ready one |
| `TcpChild.SecondWaits` | io_wait.h:634-650 | of two ready connections side by side the second is not handled if the read of the first fails |
| `TcpChild.Child.constructor` | tcp_read.c:842-855 | a reader process starts with the main socket watched only |
| `TcpChild.Child.Receive` | tcp_read.c:711-757 | a received connection is listed and watched or given back, and none is lost; the process stays consistent if and only if it was not listed already; listed elsewhere than first, with a descriptor, it is linked again, and however the list was linked it has no end any more |
| `TcpChild.Child.ReceiveNew` | tcp_read.c:742-753 | listed, then watched; taken off the list and given back if that fails |
| `TcpChild.Child.ConError` | tcp_read.c:782-785 | the connection is given back with an error |
| `TcpChild.Child.ReadConn` | tcp_read.c:758-772 | after a failed read the connection is unwatched, unlisted and given back once; else its timeout moves |
| `TcpChild.Child.Drop` | tcp_read.c:763-764 | one connection leaves list, hash and array together |
| `TcpChild.Child.ReceiveTimeout` | tcp_read.c:807-838 | bad and expired connections are given back, the others stay in order |
| `TcpChild.Child.HandleAt` | tcp_read.c:703-790 | handling one ready entry, main socket or connection: what is sent, what leaves the list and the array, and what is added |
| `TcpChild.Child.PollLoop` | io_wait.h:620-652 | a round over the ready entries, with entries removed and added under way, handles exactly the descriptors `Handled` names; what is sent and what becomes of every connection follows from them; list, hash and array stay one set |
| `Subst.MaxMatchCovers` | re.c:126-144 | every group a table refers to is among those asked for |
| `Subst.ParseRepl` | re.c:65-196 | the loop with its escape flag and its array of 100 compiles exactly the table of the text, fails exactly where it should, and leaves the array exactly where `Compile` says |
| `Subst.OverTableExactly` | re.c:65-196 | a write falls outside the table if and only if the text has more than 100 tokens and the one in the last slot is a specifier |
| `Subst.SpecifiersLeaveTable` | re.c:166-178 | more than 100 specifiers leave the table |
| `Subst.CompileEnd` | re.c:85-87 | a backslash at the very end is an ordinary character |
| `Subst.CompilePlaced` | re.c:65-196 | compiled tokens lie in the text one after the other |
| `Subst.CompiledOk` | re.c:251-259 | an expression compiled from its text is fit to run |
| `Subst.ReplayExpands` | re.c:372-482 | playing the table back equals reading the replacement text directly, for every text |
| `Subst.TailIsPlain` | re.c:469-471 | what the unchecked last copy copies are the plain characters behind the last escape or specifier |
| `Subst.ReplaceBuild` | re.c:372-482 | fails if and only if the text before the last copy does not fit the buffer of 1024; else all writes stay inside, and the buffer holds the table played back, if and only if that is at most 1024 long |
| `Subst.PlainTextLeavesBuffer` | re.c:469-471 | plain text longer than the buffer passes the checks and leaves it |
| `Subst.RunOrdered` | re.c:491-565 | the replacements found are in order, disjoint, not empty and inside the input |
| `Subst.SubstRun` | re.c:491-565 | the loop ends and finds exactly these replacements, stops at an error, or meets one that does not fit |
| `Subst.FindOnce` | re.c:517-546 | one turn: match, the two checks on it, and its replacement or that it does not fit |
| `Subst.ApplyLength` | re.c:595-596 | the length computed beforehand is the length of the result |
| `Subst.SubstStr` | re.c:574-634 | the buffer of that length holds exactly the input with the replacements put in; no result exactly on error or no match; all writes fit if and only if the run meets no replacement that is too long |
| `Subst.WriteResult` | re.c:610-623 | the copying loop fills the buffer to exactly that length |
| `Subst.SubstitutionIsRight` | re.c:65-634 | an error is returned if and only if a match reached is empty or its text up to the last escape is 1023 or longer; otherwise the run stays in its buffers if and only if every replacement fits, and then compile, match, build and write together equal replacing every match by the replacement text read directly |
| `Naptr.PassesIsSupported` | resolve.c:803-829 | the nested tests accept exactly SIP over the enabled transports unless TLS is demanded, and SIPS over TCP or SCTP with TLS on |
| `Naptr.PrioIsLexicographic` | resolve.c:773-774 | the packed priority orders by order, then preference |
| `Naptr.Link` | resolve.c:834-854 | linking keeps the list sorted with a correct last pointer |
| `Naptr.FilterAndSort` | resolve.c:776-867 | the two lists are a permutation of the input; the first holds exactly what passes, sorted, the second the rest |
| `Naptr.RejectedDoNotPass` | resolve.c:857-862 | nothing in the second list passes |
| `Naptr.InsertSrv` | resolve.c:543-557 | SRV records stay sorted by priority and weight |
| `Timer.PeriodCovers` | timer.c:282-296 | the period of a timer is the least number of ticks that covers its interval |
| `Timer.FiresOnSchedule` | timer.c:254-296 | every tick keeps a timer on schedule |
| `Timer.FiresScheduled` | timer.c:254-278 | every tick below the wrap-around keeps a second timer on schedule, before and after its last due time below 2^32 |
| `Timer.TicksRunning` | timer.c:254-278 | every tick, that of the wrap-around included, keeps a second timer called exactly as often as expected |
| `Timer.OncePerPeriodExactly` | timer.c:254-278 | reads off the count that `Process.Run` proves: once per period, and no more, if and only if the last due time below 2^32 has not passed |
| `Timer.Process.Register` | timer.c:146-162 | a timer registered at tick 0 is on schedule |
| `Timer.Process.RegisterU` | timer.c:185-196 | a microsecond timer registered at tick 0 is on schedule |
| `Timer.Process.Ticker` | timer.c:254-278 | one tick of the second clock: due timers are called, all of them when the clock wraps, and all stay as expected |
| `Timer.Process.UTicker` | timer.c:282-296 | one tick of the microsecond clock |
| `Timer.Process.Run` | timer.c:300-362 | after m turns, however often the second clock wraps around, both clocks are exact and every timer has been called exactly as often as expected; second timers once per period up to their last due time, on every tick behind it, and once at each wrap |
| `Escape.ReadsQuote` | strcommon.c:66-105 | a code in front of any text is read as its character |
| `Escape.UnescapeEscape` | strcommon.c:30-105 | unescaping undoes escaping, for every string |
| `Escape.EscapeCommon` | strcommon.c:30-61 | the loop writes the escaped string within twice the room |
| `Escape.UnescapeCommon` | strcommon.c:66-105 | the loop writes the unescaped string |
| `Escape.UserEscapedIff` | strcommon.c:221-297 | refused if and only if a character is not printable; at most three times as long |
| `Escape.UserRoundTrip` | strcommon.c:118-297 | unescaping undoes escaping for every printable string, whatever follows it in memory |
| `Escape.EscapeUser` | strcommon.c:221-297 | success exactly with enough room and printable input; writes the escaped string and a terminator |
| `Escape.UnescapeUser` | strcommon.c:118-219 | success exactly with enough room and valid codes; writes the unescaped string and a terminator |

## Left out

- SipMessage.SipMsg.BuildRequest: parse failures and a missing body (`get_body` returning 0) are not modelled; spans reported by the parser are parameters.
- TcpChild.Child.PollLoop: the connection the main socket brings is not listed at the start of the round, and its descriptor not in use; `Receive` covers the other cases on their own.
- TcpChild.Child.Receive: nothing else is said of the process once its list has no end; the descriptor received is not in use and below the size of the hash.
- IoWait.Handler.WatchAdd: nothing is promised once the look-up has left the hash.
- Timer.Process.Run: covers runs in which the 64-bit microsecond clock does not wrap around; timers are registered before the clocks start.
- ScriptLaws.TableAccessExactly: what lies behind the table of routes is taken to be some action list, any at all.
- ReplyBuilder.Build: the helper builders for received, rport, warning and server texts are parameters.
- Forced connection lifetimes in `tcp_receive_timeout`.
- Conditions on random numbers (COND_IF_RAND) and the always-true flag of optional lumps: the first is drawn anew in each pass, so the passes cannot agree.
- Allocation failures, logging, statistics, TLS reads and interrupted system calls.
- The search of `check_against_rule_list` for a matching rule, which adds only an easy loop.
- Module functions and the leaf comparisons of conditions, switch labels included: outcomes are parameters; modules do not change the action flags.
- `comp_ip` with its DIFF_OP case, which calls itself unchanged.
- MD5 rounds, CRC tables, pseudo-variables, flags and branch sets.
- The other polling methods of `io_wait.h`, the old select loop, and the main TCP process.
- DNS failover (`get_next_he`), `serialize_branches`, and record parsing.
