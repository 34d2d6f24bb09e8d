# Plan 9 commands, modelled and proved

Dafny models of the algorithmic cores of seven Plan 9 commands, with proofs of what
they promise. `dafny verify dfyconfig.toml` checks the whole project.

| command | modules | what is modelled |
|---|---|---|
| `dc` | `Radix`, `Blocks`, `DcArith`, `DcEstimate`, `DcDiv`, `DcOps`, `DcScaled`, `DcPrint`, `DcText` | the base-100 hundred's complement arithmetic on mutable blocks with read cursors: chsign, add, mult, div, dcsqrt, dcexp, add0, removr, dscale, `/` and `%`, scale, tenot, readin |
| `aan` | `AanModel`, `AanProof`, `AanTheorems`, `AanArrival`, `AanRecovery`, `AanWitness`, `AanHeader` | two endpoints over breakable FIFO connections, as a step system: main loop, fromclient, fromnet, synchronize |
| `ed` | `EdStore`, `EdLines`, `EdBuffer`, `EdGlobal`, `EdCommands` | the rune store behind the two-block cache, the handle array, m, t, j, deletion, g and v with the marking loop and the fast path |
| `ar` | `ArFormat`, `ArQueue`, `ArSymdef`, `ArArchive`, `ArScan`, `ArBuild`, `ArRead`, `ArPlan`, `ArMove` | the header format and the reading of arbitrary bytes, member queues that may spill at any allocation, the symbol table, install, and the m command |
| `fcp` | `Fcp`, `FcpEnds` | the workers that claim blocks of a file, as a step system |
| `factor` | `Factor` | the wheel |
| `calls` | `CallsModel`, `CallsTree`, `CallsTheorems`, `CallsReach`, `CallsTerse`, `CallsPrinter` | the recursive printer with its active list |

Conventions. A block of `dc` is the class `Blk`: the bytes between `beg` and `wt` are a
sequence, `rd` is an index into it. Global variables that a routine sets for its caller
(`rem`, `irem`, `arg1`, `skd`, `skr`) are results; those it uses as scratch (`divxyz`,
`sqtemp`) are parameters. `Val` is the integer a block stands for, `Normal` its normal
form. A store into a block requires the value to fit a signed char, so that every store
on the way of a division is proved to fit. `ed` positions are addresses, as in the
program; the growth of the buffer picks any new base. Where a property turned out to
depend on the input, an input that fails is shown and the exact condition is proved:

- `/` and `%`: `DcScaled.DivideModulo`, with `DcScaled.ShortDividendFails`;
- a negative exponent: `DcOps.NegativePower`; the two normal forms of -1: `Radix.MinusOneForms`;
- copying with short reads: `Fcp.CopiedExactly`, with `Fcp.ShortReadsCorrupt`;
- the fast path of g and v: `EdGlobal.FastPathAgrees`; a marked handle: `EdStore.Store.ReadsStoredLine`;
- which functions are expanded: `CallsReach.ExpandsTheReachable` in full mode; in terse mode
  `CallsReach.TerseExpandsOnce` states a sufficient condition on the graph and
  `CallsTerse.TerseLoses` a graph that loses a function;
- member names: `ArFormat.NameRecovered`; when `ar m` runs out of memory: `ArMove.Mcmd`;
- which lines t can copy and j can join: `EdBuffer.Buffer.CopyLines`, `EdCommands.JoinLines`.

In `aan` a buffer is not always recycled after its chunk was delivered: fromnet counts a
message as received before it writes it out. `AanTheorems.RecycledWasAccepted` states
exactly when it does, in every run, and `AanWitness.AckCanPrecedeDelivery` gives a run in
which the ack comes first. A connection that breaks inside a keep-alive header can stop
an endpoint as if its peer had ended; `AanHeader.TornKeepAlive` states exactly when.

## Model

| member | source | states |
|---|---|---|
| `Blocks.Blk.Sgetc` | sys/src/cmd/dc.c:39 | reading at the cursor returns the byte there and advances, or EOF (-1) at the end without moving |
| `Blocks.Blk.Sbackc` | sys/src/cmd/dc.c:41 | reading backwards returns the byte before the cursor, or EOF at the beginning |
| `Blocks.Blk.Salterc` | sys/src/cmd/dc.c:52-54 | overwriting at the cursor, or appending when it stands at the end; every stored value is demanded to fit a signed char |
| `Blocks.Blk.Seekc` | sys/src/cmd/dc.c:2152-2178 | the cursor goes to position n; a shorter block grows, and the bytes it grows by are not specified |
| `Radix.NormalSign` | sys/src/cmd/dc.c:1343-1433 | in normal form the top byte alone decides the sign and emptiness alone decides zero |
| `Radix.NormalUnique` | sys/src/cmd/dc.c:1343-1433 | two normal forms of a value are equal, unless the value is -1 |
| `Radix.MinusOneForms` | sys/src/cmd/dc.c:1418-1433 | the normal forms of -1 are exactly the byte -1, which chsign leaves, and 99 below -1, which add leaves |
| `DcArith.Chsign` | sys/src/cmd/dc.c:1401-1433 | hundred's complement in place negates the value and keeps normal form |
| `DcArith.ComplementInPlace` | sys/src/cmd/dc.c:1407-1417 | the digit loop of the complement, tied to its specification with the final borrow |
| `DcArith.NegatedVal` | sys/src/cmd/dc.c:1401-1433 | the bytes left by the complement have the negated value |
| `DcArith.NegatedNormal` | sys/src/cmd/dc.c:1418-1433 | dropping one redundant top byte is enough to keep normal form |
| `DcArith.Add` | sys/src/cmd/dc.c:1768-1816 | the result is the exact sum, in normal form, for all signed operands of any two lengths |
| `DcArith.AddDigits` | sys/src/cmd/dc.c:1774-1795 | the digit loop of the sum with its signed carry |
| `DcArith.SumBytesVal` | sys/src/cmd/dc.c:1774-1795 | the bytes of that loop, with the last carry as top byte, have the value of the sum |
| `DcArith.Mult` | sys/src/cmd/dc.c:1343-1399 | the result is the exact product, in normal form, for all signs |
| `DcArith.MultRow` | sys/src/cmd/dc.c:1373-1390 | one row adds digit * multiplicand * 100^offset to the accumulator |
| `DcArith.ProductNormal` | sys/src/cmd/dc.c:1369-1399 | the product of two normal numbers has at most one missing top byte, so no leading zero remains |
| `DcEstimate.EstimateBounds` | sys/src/cmd/dc.c:865-895 | the digit estimated from three digits over two, with and without the magic rescale, is off by so little that the remainder stays within the range the later fix-ups repair; inner and last position |
| `DcDiv.DigitIsGood` | sys/src/cmd/dc.c:875-895 | the same for the digits actually read off divisor and dividend |
| `DcDiv.EstimateDigit` | sys/src/cmd/dc.c:876-895 | the estimate as computed on the blocks: at most 117, remainder in range |
| `DcDiv.ScaleDivisor` | sys/src/cmd/dc.c:896-904 | divxyz holds digit * divisor |
| `DcDiv.SubtractAt` | sys/src/cmd/dc.c:905-918 | the window of the dividend minus divxyz, digit by digit, with the borrow |
| `DcDiv.DropTop` | sys/src/cmd/dc.c:922-929 | the top byte is folded into the one below, or dropped |
| `DcDiv.Fold` | sys/src/cmd/dc.c:922-929 | folding keeps the value, and the byte that absorbs 100 stays below 117 |
| `DcDiv.DivStep` | sys/src/cmd/dc.c:875-930 | one turn of the loop keeps dividend = divisor * quotient so far + rest, and ends in the state the fix-ups expect |
| `DcDiv.FixLast` | sys/src/cmd/dc.c:931-950 | after the undershoot and overshoot corrections 0 <= rest < divisor |
| `DcDiv.CarryPass` | sys/src/cmd/dc.c:952-963 | quotient bytes above 99 are carried without changing the value |
| `DcDiv.Div` | sys/src/cmd/dc.c:827-985 | for every dividend and nonzero normal divisor: dividend = quotient * divisor + rem, abs(rem) < abs(divisor), rem zero or of the dividend's sign, quotient normal; zero divisor gives an empty quotient and no remainder; each byte stored in divd, p and divxyz fits a signed char |
| `DcDiv.QuotientSigns` | sys/src/cmd/dc.c:845-859 | the signs put back after dividing absolute values give truncation toward zero |
| `DcOps.NewtonStep` | sys/src/cmd/dc.c:1099-1118 | from above the root a step either stops at the root or stays above it and is smaller |
| `DcOps.FirstGuess` | sys/src/cmd/dc.c:1078-1098 | the first guess is above the root |
| `DcOps.RootAbove` | sys/src/cmd/dc.c:1087-1090 | subtracting odd numbers finds the least k whose square exceeds the leading digits |
| `DcOps.Dcsqrt` | sys/src/cmd/dc.c:1072-1123 | terminates for every positive p with r*r <= p < (r+1)*(r+1), r normal |
| `DcOps.PowerStep` | sys/src/cmd/dc.c:1144-1160 | one bit of the exponent: what is still owed is unchanged |
| `DcOps.Dcexp` | sys/src/cmd/dc.c:1125-1180 | base to the exponent, normal; for a negative exponent the answer by cases on the bytes of the base |
| `DcOps.NegativePower` | sys/src/cmd/dc.c:1161-1175 | for a base other than zero that answer is the inverse of the power, truncated, if and only if the base is not -1, or is the single byte -1 under an odd exponent |
| `DcOps.Add0` | sys/src/cmd/dc.c:1317-1341 | appending ct decimal zeros multiplies by 10^ct |
| `DcScaled.Removr` | sys/src/cmd/dc.c:1025-1070 | what is left and what was taken off add up to p with truncation toward zero if and only if p has at least n/2 bytes; bounds and signs in that case, and otherwise nothing is left and what is taken off is p with each missing byte counted as -1 |
| `DcScaled.RemoveDecimals` | sys/src/cmd/dc.c:1031-1069 | the same on a nonnegative number, odd and even n |
| `DcScaled.Dscale` | sys/src/cmd/dc.c:987-1023 | the two error exits, and the dividend brought to k decimals more than the divisor by add0 or removr |
| `DcScaled.DivideModulo` | sys/src/cmd/dc.c:279-305 | quotient and remainder of / and % satisfy the division law exactly as scaled decimals, for every k and every operand scale byte, if and only if nothing is taken off or the dividend has at least half as many bytes as decimals are taken off; otherwise the quotient is zero and the remainder is the dividend with each missing byte counted as -1 |
| `DcScaled.ModuloLaw` | sys/src/cmd/dc.c:288-305 | the remainder recombined with the removed decimals: the same if and only if |
| `DcScaled.ShiftedDivides` | sys/src/cmd/dc.c:298-305 | division of the shortened dividend extends to the full one |
| `DcScaled.ShortDividendFails` | sys/src/cmd/dc.c:1036-1052 | .00001 by 1 at scale 0 does not meet that condition, so the law fails there: the remainder's digits come to -99 |
| `DcScaled.ScaleByteFits` | sys/src/cmd/dc.c:294-304 | the scale byte pushed with the remainder is right exactly when the scale fits a char |
| `DcPrint.Tenot` | sys/src/cmd/dc.c:1625-1673 | the text printed, with the continuations taken out, is the number with sc decimals (PrintedIs); a line is continued as soon as it has 70 columns, a pair of characters staying together, and the last line is shorter; all scales, also of numbers with leading zero bytes |
| `DcPrint.PrintInteger` | sys/src/cmd/dc.c:1630-1640 | the digits of the whole bytes left of the point, the topmost without a leading zero |
| `DcPrint.PrintPoint` | sys/src/cmd/dc.c:1646-1658 | the point between the digits that belong before and behind it, with the byte that straddles it, or the zeros after it |
| `DcPrint.PrintedIs` | sys/src/cmd/dc.c:1625-1673 | for a normal number that text is the numeral of the whole part and, if sc > 0, the point and exactly sc digits; a whole part of zero is left out, except that 0 is printed when sc is odd and the first decimal is not zero |
| `DcPrint.Printer.Outc` | sys/src/cmd/dc.c:59 | one column, and a new line exactly when it was the last one free |
| `DcPrint.Printer.Out2` | sys/src/cmd/dc.c:60 | two columns, and a new line exactly when at most two were free |
| `DcText.Scale` | sys/src/cmd/dc.c:1881-1897 | p with n decimals: multiplying and dividing by 10^n is the identity |
| `DcText.Readin` | sys/src/cmd/dc.c:1265-1315 | the longest text that is still a number is consumed, and the value and scale of that text returned |
| `DcText.ReadsNumber` | sys/src/cmd/dc.c:1275-1304 | digits up to F, a point and digits are read as the number they stand for in positions of ten, with as many decimals as there are but at most 99 |
| `DcText.PrintThenRead` | sys/src/cmd/dc.c:1625-1673 | readin of what tenot prints returns the same bytes and scale, for every positive number and scale up to 99 |
| `AanProof.NextInv` | sys/src/cmd/aan.c:171-323 | every step of either endpoint, and every loss on the wire, keeps the protocol invariant, in which an endpoint that has stopped reading has met its peer's end of input and nothing before it was empty |
| `AanProof.RunInv` | sys/src/cmd/aan.c:146-323 | so it holds in every run |
| `AanTheorems.DeliveredIsPrefix` | sys/src/cmd/aan.c:298-319 | in every run the chunks written to a client are a prefix, in order and without repeats, of the chunks the other side read |
| `AanTheorems.AcceptedIsNext` | sys/src/cmd/aan.c:298-302 | an accepted message has number exactly inmsg, although only msg < inmsg is tested |
| `AanTheorems.AcksNeverWait` | sys/src/cmd/aan.c:304-316 | while acks are outstanding unacked is not empty and its first buffer has the number the assertion checks |
| `AanTheorems.RecycledWasAccepted` | sys/src/cmd/aan.c:304-319 | a buffer is recycled only after the peer accepted it, and every recycled chunk has been delivered exactly when the peer is not just writing out the last of them |
| `AanTheorems.PoolConserved` | sys/src/cmd/aan.c:146-149 | each of the Nbuf buffers is always in exactly one channel or one process's hands |
| `AanArrival.EndsAtEnd` | sys/src/cmd/aan.c:207-322 | in every run an endpoint stops reading only at its peer's end of input, with everything before it accepted and delivered, and its main loop stops exactly when it has sent its own end |
| `AanArrival.NothingLeft` | sys/src/cmd/aan.c:207-323 | with the sender connected to a connection that still carries everything, none of its buffers waiting and nothing in flight, a reader at rest has delivered all of the input |
| `AanArrival.AllArrives` | sys/src/cmd/aan.c:171-323 | while a connection holds, the loops make at most Rest steps in whatever order, are never stuck, and when they can do no more all of the input has arrived |
| `AanRecovery.AllCanArrive` | sys/src/cmd/aan.c:171-386 | after every run in which neither client has ended, whatever broke and was lost, the endpoints can reconnect, resend and deliver all that has been read |
| `AanProof.MainConnectStep` | sys/src/cmd/aan.c:172-183 | reconnecting and resending unacked keeps the invariant |
| `AanProof.ResendConsecutive` | sys/src/cmd/aan.c:376-384 | the resent messages carry consecutive numbers from the first unacked one, each with the ack it was sent with |
| `AanWitness.AckCanPrecedeDelivery` | sys/src/cmd/aan.c:317-319 | a run in which the peer has recycled a buffer whose chunk has not been written to the client |
| `AanHeader.HeaderRoundTrip` | sys/src/cmd/aan.c:496-524 | unpackhdr undoes packhdr, and -1 is seen as negative by the reader |
| `AanHeader.HeaderDecides` | sys/src/cmd/aan.c:275-302 | the header of a message decides the reader's next step: it stops exactly at an end of input, reads on at a keep-alive or at data it has seen, and takes new data |
| `AanHeader.EndsExactly` | sys/src/cmd/aan.c:279-285 | a header buffer ends the endpoint exactly when its size is zero and the top bit of its number is clear |
| `AanHeader.TornKeepAlive` | sys/src/cmd/aan.c:265-285 | a break after m bytes of a keep-alive header, over the bytes of the previous header, ends the endpoint if and only if that header had a number >= 0, at most seven bytes arrived, and fewer than four only if they covered its size |
| `EdStore.Store.GetBlock` | sys/src/cmd/ed.c:1046-1079 | the two-block cache answers with the block of one flat rune array, whichever buffer holds it |
| `EdStore.Store.StoreRunes` | sys/src/cmd/ed.c:1016-1032 | a line goes into the flat array at its handle, across block boundaries, and nothing before it changes |
| `EdStore.Store.PutLine` | sys/src/cmd/ed.c:1008-1036 | fails exactly when the line's end falls beyond the last block; otherwise the new handle names the line and all older handles keep theirs |
| `EdStore.Store.GetLineAt` | sys/src/cmd/ed.c:993-1005 | the runes up to the zero rune, wherever block boundaries fall |
| `EdStore.Store.GetLine` | sys/src/cmd/ed.c:987-1005 | reading a handle leaves the stored lines alone and gives their text |
| `EdStore.Store.ReadsStoredLine` | sys/src/cmd/ed.c:1055 | a handle reads as the stored line if and only if its mark bit is clear |
| `EdStore.SameReads` | sys/src/cmd/ed.c:987-1036 | storing more lines does not change what an old handle reads |
| `EdLines.Reverse` | sys/src/cmd/ed.c:1381-1393 | in place, the range is end for end and the rest untouched |
| `EdLines.ThreeReversals` | sys/src/cmd/ed.c:1367-1375 | three reversals exchange two neighbouring ranges |
| `EdLines.Relocate` | sys/src/cmd/ed.c:1362-1378 | the block goes after the target, by rotation in place |
| `EdLines.MovedIsRelocation` | sys/src/cmd/ed.c:1338-1379 | the block stands right after the target in its order, the other lines keep theirs, nothing is lost or repeated |
| `EdLines.AfterMoveLast` | sys/src/cmd/ed.c:1357-1377 | dot is put on the last moved line, its mark cleared |
| `EdBuffer.Buffer.MoveLines` | sys/src/cmd/ed.c:1338-1379 | m: refused exactly when the target lies in the block; otherwise the lines after the move, and where dot is |
| `EdBuffer.Buffer.Grow` | sys/src/cmd/ed.c:822-835 | reallocation at any address keeps all lines and the positions of all pointers |
| `EdBuffer.Buffer.Insert` | sys/src/cmd/ed.c:836-843 | the new handle becomes the line after dot, and dot |
| `EdBuffer.Buffer.AppendCopies` | sys/src/cmd/ed.c:1395-1402 | copies with handles of their own at the end, reading as the originals did; it fails exactly when the store has no room for one of them |
| `EdBuffer.Buffer.CopyLines` | sys/src/cmd/ed.c:1338-1379 | t: fails exactly when the store has no room for the copies; otherwise the original lines plus a copy of the block after the target, dot on its last line, even when append reallocates |
| `EdLines.Rdelete` | sys/src/cmd/ed.c:946-963 | the lines disappear, the rest moves up, dot is on the line that followed or on the last one |
| `EdLines.Gdelete` | sys/src/cmd/ed.c:965-985 | exactly the unmarked lines remain, in order |
| `EdGlobal.EditMakesNoMark` | sys/src/cmd/ed.c:946-963 | no legal edit creates a mark or copies one |
| `EdGlobal.MoveMakesNoMark` | sys/src/cmd/ed.c:1338-1379 | the same for m, which clears the marks it moves |
| `EdCommands.MoveIsEdit` | sys/src/cmd/ed.c:1338-1379 | what m leaves is what the edit leaves, with the error of a target inside the block |
| `EdCommands.StoredUnmarked` | sys/src/cmd/ed.c:1033-1035 | a handle that putline returned carries no mark |
| `EdCommands.Copy` | sys/src/cmd/ed.c:1338-1379 | what t leaves is what a list of legal insertions of unmarked handles leaves, and it fails exactly when the store is full |
| `EdCommands.DeleteLines` | sys/src/cmd/ed.c:229-232 | d on the handle array, for every range: an error exactly on a bad address, otherwise what the edit leaves, and where dot is |
| `EdCommands.StoreLine` | sys/src/cmd/ed.c:1207-1216 | a line stored in place of another, as s does: what the edit that replaces a handle leaves, with a new unmarked handle that reads as the line |
| `EdCommands.AppendLine` | sys/src/cmd/ed.c:817-843 | one line appended after dot: what the edit that inserts a handle leaves |
| `EdCommands.JoinLines` | sys/src/cmd/ed.c:1158-1180 | j: an error exactly when the joined line is too long or the store is full; otherwise what one replacement and one deletion leave, the new handle reading as the addressed lines together |
| `EdCommands.StartOver` | sys/src/cmd/ed.c:1081-1100 | init leaves what the edit leaves: line zero alone |
| `EdGlobal.Round` | sys/src/cmd/ed.c:1147-1154 | one round of global leaves fewer marks, whatever the commands |
| `EdGlobal.Global` | sys/src/cmd/ed.c:1147-1155 | ends for every buffer and command list in at most as many rounds as marks, with no mark left unless an error ended it, despite the restart at zero; what it leaves is GlobalFrom, whose edits are those of the commands on the array |
| `EdGlobal.DeleteEachMarked` | sys/src/cmd/ed.c:1147-1155 | deleting each marked line one at a time leaves the unmarked lines |
| `EdGlobal.SubstituteOnMarks` | sys/src/cmd/ed.c:1147-1155 | with a command that stores dot's line anew the loop gives each marked line its new handle and keeps all others in order, if and only if line zero carries no mark |
| `EdGlobal.SubstituteMatching` | sys/src/cmd/ed.c:1103-1156 | the same on the lines before marking: exactly those in range that match as asked are replaced |
| `EdGlobal.FastPathOnMarks` | sys/src/cmd/ed.c:1140-1155 | on marked lines: the same lines if and only if line zero carries no mark; otherwise the general loop ends in an error at once |
| `EdGlobal.MarkLines` | sys/src/cmd/ed.c:1134-1138 | the marking loop in place |
| `EdGlobal.MarksExactly` | sys/src/cmd/ed.c:1134-1138 | a line is marked if and only if it is in range and matches as asked, line zero never matching; what it names does not change |
| `EdGlobal.ZeroGetsMark` | sys/src/cmd/ed.c:1134-1138 | within the range that squeeze allows, line zero gets a mark if and only if the buffer is empty and the command is v |
| `EdGlobal.FastPathAgrees` | sys/src/cmd/ed.c:1103-1156 | for every buffer, address and expression, gdelete and the general loop with d leave the same lines if and only if it is not v on an empty buffer; there one ends in an error and the other leaves nothing |
| `EdGlobal.GlobalDelete` | sys/src/cmd/ed.c:1103-1146 | g/re/d and v/re/d on the handle array: refused exactly on a bad address; otherwise the lines left are those out of range or not matching as asked, in order; dol ends before line zero exactly for v on an empty buffer |
| `ArFormat.StrtolDecimal` | sys/src/cmd/ar.c:711-712 | a decimal field is read back, saturating at the largest long |
| `ArFormat.MadeSound` | sys/src/cmd/ar.c:730-741 | the header written for a file declares its size |
| `ArFormat.NameRecovered` | sys/src/cmd/ar.c:703-709 | a name of up to 16 characters is found again if and only if it does not end in a blank or a slash |
| `ArFormat.GetdirEncoded` | sys/src/cmd/ar.c:689-714 | getdir finds the header that arwrite wrote, and skip lands behind the member |
| `ArFormat.WalkRecovers` | sys/src/cmd/ar.c:772-778 | walking an archive with getdir and skip recovers names, sizes and bodies in order |
| `ArQueue.Arfile.Arinsert` | sys/src/cmd/ar.c:1070-1079 | appending to the linked chain |
| `ArQueue.Arfile.Arcopy` | sys/src/cmd/ar.c:754-767 | the queue grows by the member, and its size by header and padded body |
| `ArQueue.Arfile.Page` | sys/src/cmd/ar.c:1133-1156 | spilling the head changes neither what was inserted nor the size, also when the head was the tail |
| `ArQueue.Arfile.Arstream` | sys/src/cmd/ar.c:1084-1110 | spilled bytes and then the chain are the members in the order of insertion |
| `ArBuild.Builder.Getspace` | sys/src/cmd/ar.c:1163-1173 | spills from the first queue that has a member in memory and keeps all three queues' contents; fails exactly when none has |
| `ArBuild.Builder.Armalloc` | sys/src/cmd/ar.c:1194-1209 | gives up exactly when malloc fails more often than there are members in memory, that is, when the failures so far exceed the members copied so far; otherwise spilling changes nothing that is queued or counted |
| `ArSymdef.RefsLocated` | sys/src/cmd/ar.c:559-586 | a queue's chain holds exactly the exported symbols, each with the place of a member defining it |
| `ArBuild.Builder.Objsym` | sys/src/cmd/ar.c:559-586 | one symbol: chain, size, table of text names, duplicate flag, and exactly when its two or three allocations succeed |
| `ArBuild.Builder.Scanobj` | sys/src/cmd/ar.c:518-554 | allobj is kept exactly while all members are objects for one machine, a repeated text symbol is noticed, and it succeeds exactly when the allocations for the new symbols do |
| `ArBuild.Builder.Take` | sys/src/cmd/ar.c:428-443 | scan and copy: chains and symdefsize stay complete, and it succeeds exactly when its allocations do |
| `ArSymdef.Wrsym` | sys/src/cmd/ar.c:864-880 | the bytes of the entries |
| `ArSymdef.TableRoundTrip` | sys/src/cmd/ar.c:864-880 | reading the table back gives each symbol and its offset modulo 2^32 |
| `ArArchive.TablesLength` | sys/src/cmd/ar.c:582 | symdefsize is the number of bytes wrsym writes |
| `ArArchive.SymdefSound` | sys/src/cmd/ar.c:828-859 | the symbol table's header declares the bytes written plus pad |
| `ArBuild.Builder.Rl` | sys/src/cmd/ar.c:817-859 | the symbol table as written before any member |
| `ArArchive.EntriesHitMembers` | sys/src/cmd/ar.c:844-854 | the entries are exactly the exported symbols, each with the archive position of a member defining it |
| `ArArchive.MemberStandsAt` | sys/src/cmd/ar.c:783-815 | at that position the archive holds that member and all that follow |
| `ArArchive.EntriesFindMembers` | sys/src/cmd/ar.c:783-880 | in an installed archive below 2^32 bytes the entries are exactly the exported symbols, and getdir at an entry's offset finds a member exporting it |
| `ArArchive.ArchiveListing` | sys/src/cmd/ar.c:783-815 | reading the installed archive shows the symbol table and then every member |
| `ArBuild.Builder.Install` | sys/src/cmd/ar.c:783-815 | the archive is left alone exactly when all members are objects and a text symbol is defined twice; otherwise symbol table, if any, and three queues in order |
| `ArPlan.Match` | sys/src/cmd/ar.c:885-902 | a name matches while it is asked for, and uses up one argument |
| `ArPlan.TrimPlain` | sys/src/cmd/ar.c:948-966 | what an argument is compared by has no slash and at most 16 characters |
| `ArPlan.TrimIs` | sys/src/cmd/ar.c:948-966 | trailing slashes do not matter, and of the rest the last component counts, its first 16 characters |
| `ArRead.TailStep` | sys/src/cmd/ar.c:907-932 | the static state of bamatch marks the members behind the pivot, or from it on |
| `ArRead.ParseEncoded` | sys/src/cmd/ar.c:689-714 | an archive that ar wrote is read back member by member |
| `ArRead.ReadAll` | sys/src/cmd/ar.c:423-427 | the members of any bytes, or why they are refused, each member with its side of the pivot |
| `ArPlan.Plan` | sys/src/cmd/ar.c:423-444 | each member goes where its name, the number of earlier members of that name and its side of the pivot say |
| `ArPlan.NoneLost` | sys/src/cmd/ar.c:407-449 | m neither loses nor repeats a member |
| `ArPlan.OnlySymdefPitched` | sys/src/cmd/ar.c:433-439 | only an old symbol table at the very front is dropped |
| `ArMove.Mcmd` | sys/src/cmd/ar.c:407-449 | for all bytes and every pattern of allocation failures: out of memory exactly when a size is no size or, at some allocation, malloc has failed more often than members were copied before it; otherwise a phase error exactly on a wrong magic, and else the archive written holds unmoved members up to the pivot, then the moved ones, then the rest |
| `ArMove.MemoryEnough` | sys/src/cmd/ar.c:1194-1209 | when malloc never fails there is memory for every archive |
| `ArMove.MovedListing` | sys/src/cmd/ar.c:407-449 | walking that archive shows the members in that order |
| `ArMove.MovedSymbols` | sys/src/cmd/ar.c:407-449 | and, below 2^32 bytes, getdir at each symbol table entry finds a member exporting it |
| `Fcp.RunInv` | sys/src/cmd/fcp.c:192-234 | in every interleaving, with reads as short as they like: one worker for a block, buffers hold what was read, and the bytes written are those claimed that no worker still has before it |
| `Fcp.BlocksDisjoint` | sys/src/cmd/fcp.c:222-234 | two claims anywhere in a run take blocks that do not overlap |
| `Fcp.CopyIsExact` | sys/src/cmd/fcp.c:151-220 | with reads short only at end of file the destination is the source when all workers have gone |
| `Fcp.CopiedExactly` | sys/src/cmd/fcp.c:151-220 | in every run whose workers have all gone each byte of the file has been written, and the destination is the source if and only if every write of the run put bytes that repeat |
| `FcpEnds.RunsEnd` | sys/src/cmd/fcp.c:202-219 | every run has at most three steps for each byte of the file and each worker |
| `FcpEnds.EndsWhenGone` | sys/src/cmd/fcp.c:202-219 | no step is possible exactly when all workers have gone |
| `Fcp.WriteRight` | sys/src/cmd/fcp.c:202-219 | a write keeps all bytes right if and only if the first bytes of its block repeat where it puts them |
| `Fcp.ShortReadsCorrupt` | sys/src/cmd/fcp.c:202-219 | two short reads of [1, 2] leave [1, 1] |
| `Factor.SkippedShare` | sys/src/cmd/factor.c:7-14 | the wheel skips only numbers that share a factor with 210, in every revolution |
| `Factor.DivideOut` | sys/src/cmd/factor.c:81-85 | d is divided out as often as it goes; what is printed stays prime and ascending |
| `Factor.SmallPrimes` | sys/src/cmd/factor.c:57-77 | 2, 3, 5 and 7 are divided out first |
| `Factor.Revolve` | sys/src/cmd/factor.c:79-92 | a revolution of the wheel leaves no divisor up to its end |
| `Factor.RestIsPrime` | sys/src/cmd/factor.c:86-95 | the bound tested only when the wheel wraps is sufficient |
| `Factor.FactorNumber` | sys/src/cmd/factor.c:48-96 | ends for every n; for n >= 1 the printed numbers are primes in ascending order with product n |
| `CallsPrinter.Printer.Output` | sys/src/cmd/calls.c:401-454 | terminates on every finite graph, prints what the specification says, which PrintsTrees reads as a drawing, and restores activelist and activep |
| `CallsTree.PrintsTrees` | sys/src/cmd/calls.c:401-454 | for every graph and list of roots: one tree for each root in order, a line for each callee of an expansion in the order of the calls, [external] exactly on undefined functions and recursion marked exactly on active ones, every line one tab further in than its caller with full widths as stars, line numbers from one without gaps, and rules exactly around callees that start a new width of more than one tab |
| `CallsPrinter.Printer.Makeactive` | sys/src/cmd/calls.c:364-374 | pushes unless the list is full |
| `CallsPrinter.Printer.Active` | sys/src/cmd/calls.c:380-389 | true exactly when the function is active below the top |
| `CallsPrinter.Printer.Backup` | sys/src/cmd/calls.c:352-357 | pops |
| `CallsPrinter.Printer.Indent` | sys/src/cmd/calls.c:413-416 | how many widths are taken off and what is left of the indentation |
| `CallsTheorems.OutputAllSane` | sys/src/cmd/calls.c:427-428 | nothing already active below it is expanded, and the active list never repeats; too deep only with at least 300 functions |
| `CallsTheorems.OutputAllOnce` | sys/src/cmd/calls.c:434-437 | in terse mode each function is expanded at most once |
| `CallsTheorems.OutputAllRefers` | sys/src/cmd/calls.c:436-451 | a line referred to is an earlier line where that function was expanded |
| `CallsReach.ExpandsTheReachable` | sys/src/cmd/calls.c:401-454 | in full mode a function is expanded if and only if it is defined and a chain of at most 300 functions leads to it from a root |
| `CallsReach.TooDeepExactly` | sys/src/cmd/calls.c:409-412 | in full mode nesting gets too deep if and only if a chain of calls without repeats fills the active list and calls on |
| `CallsReach.SmallGraphsFit` | sys/src/cmd/calls.c:409-412 | with fewer than 300 functions there is no such chain |
| `CallsReach.TerseExpandsOnce` | sys/src/cmd/calls.c:434-451 | in terse mode, when there is no such chain, the reachable defined functions are expanded, each exactly once |
| `CallsTerse.TerseLoses` | sys/src/cmd/calls.c:434-451 | a graph in which terse mode never expands a function three calls from the root, while full mode does |

## Left out

- `dc`: storage management (salloc, more, release), byte capacity, macros, arrays, strings, non-decimal output (bigot, hexot, oneot) and non-decimal input, eqk and removc, printing of negative numbers.
- DcOps.Dcsqrt: only positive numbers; the caller handles zero and refuses negative ones.
- DcText.Scale: the input base is 10.
- DcText.Readin: the input base is 10; end of input ends a number as any other character does; unreadc is the position returned.
- DcText.PrintThenRead: input and output base 10 only, and the blank or sign before a number is not printed.
- DcArith.Add: the two operands are different blocks; the program never adds a block to itself, since both have cursors of their own.
- `aan`: reconnect and synchronize are one step with respect to ack processing; the code does not lock this. Dialing, timers, the process structure and the 32-bit wrap of message counters (after 2^31 messages) are not modelled.
- AanProof.MainConnectStep: one atomic step, as said above; connections break between messages there, and what a break inside a header does is stated by AanHeader.TornKeepAlive alone.
- AanRecovery.AllCanArrive: not once a client has ended, because the main loop leaves as soon as it has written the end of input, whether or not that arrives (aan.c:216-220).
- AanTheorems.RecycledWasAccepted: does not claim delivery before recycling, because fromnet increments inmsg before it writes to the client (aan.c:317-319).
- `ed`: terminal and file input, regular expressions, the text that a substitution makes, undo, signals. A command list in global is a function from the lines and dot to edits, where an edit is an insertion, deletion, replacement, move or reset of lines.
- EdStore.Store.GetLine: not for a marked handle of an empty line, whose reading starts behind the line's end.
- EdStore.Store.PutLine: nothing is stated about the store after the failure exit, where the program calls error.
- EdGlobal.Global: works on the sequence of handles; the handle array itself, and its relocation while commands run, are not modelled there.
- EdLines.Gdelete: where dot ends is not stated.
- `ar`: object file parsing (the symbols of a member are given), real files, the commands other than m, messages.
- ArQueue.Arfile.Page: creating and writing the temporary file does not fail.
- ArFormat.Walk: a negative size or a body cut short is answered with Bad; the program would seek backwards or read past the end.
- ArMove.Mcmd: the old archive is read and matched in full before its members are queued (ReadAll, Plan, Sweep), which changes no result; a negative size counts as memory running out, also for an old symbol table, which the program would skip backwards; the third queue exists from the start, empty until the pivot is reached, where the allocation for it is counted.
- ArBuild.Builder.Duplicate: the hash table is a set of names; its 1024 chains are not modelled.
- `fcp`: failing reads and writes, process creation and waiting, directories and modes.
- Factor.FactorNumber: numbers are naturals; the program's doubles agree below 2^53.
- CallsReach.TerseExpandsOnce: a sufficient condition only; which function terse mode loses depends on the order of the calls.
- `calls`: the C scanner and preprocessor; the call graph is given. dumptree is a list of roots printed one after the other.
- Everything else in the repository: headers and libraries, graphics, mail and window programs, and commands whose properties would be easy by comparison.
