# A verified model of the IRC services daemon

Services is a C daemon that links itself to an IRC network and offers nick, memo, news and operator
services. This project models its self-contained stateful parts in Dafny and proves what each of them
is for: the server list with its tree, the timer list, the two socket rings, MD5 fed in pieces, the
database files with their backup, the news list and its file, wildcards, number lists and the memos
deleted by them, the language file compiler and its loader, the line parser and the ignore list.

Structures that the C code changes in place are classes and arrays here, with the same pointers, loops
and in-place updates. Each has an abstract value (a forest, a queue, a list, a map) that its methods are
tied to, and the laws are proved of those values, over all inputs or all runs. What comes from outside
(bytes moved by a socket, calls that fail, the clock, what callbacks do) is left open: an arbitrary choice
inside a method, or a parameter.

## The files

- `CString`, `Bytes`, `Sight`: C strings, byte sequences, and a way to keep definitions folded.
- `Servers`, `ServerRuns`: `servers.c`, compiled with or without P10. The list is threaded through `next` and `prev`, the tree through
  `hub`, `hijo` and `rehijo`; SQUIT prunes a subtree from both. Above it, the messages SERVER and SQUIT
  act on a plain list of entries, and whole runs are proved equal on both levels.
- `TimerRuns`, `Timeouts`: `timeout.c`. Callbacks are arbitrary sequences of additions and deletions, given
  by a script; the loop over the linked list is proved to compute a function of the list and the script, and
  `CheckMeaning` says what that function means.
- `Rings`: `sockutil.c`. Bytes come and go in arbitrary amounts; both rings are queues.
- `Md5`: `encrypt.c`. The compression function is a parameter; buffering, bit count and padding are modelled.
- `Files`, `DataFiles`, `Records`: `datafiles.c` over a file system of names, inodes and open files in which
  every call may fail. A ghost trace records what each name held after every call, so that it can be said
  what is on disk at every moment; a ghost counter records how many calls have failed.
- `NewsFormat`, `News`: `news.c`, the array of news items, saved and loaded through the above.
- `Wild`: the pattern matcher of `misc.c`, against the usual meaning of `*` and `?`.
- `NumList`, `NumRanges`, `NumEntries`, `NumCuts`: `process_numlist` of `misc.c`, what well-formed lists mean, what any list
  means, and what is left of a list that is cut short.
- `MemoList`, `MemoServ`: the memo lists of `memoserv.c`.
- `LangText`, `LangFile`, `LangComp`, `Language`: `lang/langcomp.c`, and the loader in `language.c`.
- `IrcLine`, `IgnoreMap`, `Ignore`: `process.c`.

## Where the code and its comments or promises part

The model follows the code. Where a promise fails on some inputs only, the condition under which it holds is proved; where
that condition is exact, it says so.

- `do_match_wild` misses strings if a `*` is followed by `?`, one or more, with no `*` right behind them
  (`*?` does not match `ab`). `Wild.ExactlyWhen` proves that exactly these patterns lose anything; what is found in
  a string without wildcard characters is what the pattern means once every `*` before another wildcard is dropped.
- `process_numlist` is said to ignore invalid characters. An entry that does not lead with a number counts from 0 instead, up
  to the number behind its dash if it has one (`NumEntries.Behind`), and a number behind other characters is lost
  (`x5` means 0; `NumEntries.LostNumber`). `NumEntries.IgnoredExactly` says for every list when such entries are as good as ignored:
  exactly if the others mean all numbers from 0 to the largest of those.
- In the same lists a `long` of 64 bits is made an `int`, so that `4294967297` is 1 (`NumRanges.WrapsRound`). A range is read as
  it is meant exactly if it survives that (`NumRanges.ReadAsMeant`).
- `split_buf` gives a leading colon its meaning whatever `colon_special` says. That makes a difference exactly if a word begins
  with a colon (`IrcLine.ColonsMatter`).
- A parameter without a colon may begin with a tab in section 2.3.1 of RFC 1459; `split_buf` takes that, and all other white space,
  for the space before it (`IrcLine.TabLost`). A line is split into its parts exactly if no such parameter begins with
  white space (`IrcLine.LineRoundTrip`).
- The reply of DEL is cut off at the size of its buffer, and names exactly the numbers deleted if and only if the report fits
  (`MemoServ.MemoInfo.Del`, `NumCuts.ListInBuffer`).
- `do_squit` on a server whose hub was never found leaves that server in the list, with all below it gone and `hijo` pointing to
  what was freed. The network stays valid exactly if the server had no children (`Servers.Network.DoSquit`), and
  SQUIT undoes SERVER exactly if the hub was found (`ServerRuns.SquitUndoesServer`).
- `save_news` tests `write_buffer` for a negative result, which it never gives. A nick that is written in part only therefore
  goes unnoticed, and the file is committed without those bytes. A committed file is the whole list exactly if no call has failed
  between the opening and the closing (`News.NewsList.SaveNews`).
- `load_news` does the same with `read_buffer`. Unless loading is forced, no other failing call goes unnoticed: the list loaded is
  that of the file if no nick is cut short, and in any case what reading so much of each nick gives (`News.NewsList.LoadNews`).
- `restore_db` unlinks the backup name in the end even if neither way back has worked. `DataFiles.RestoreDb` says which
  failures can be borne, that only this last call can lose the old contents, and not by failing, and that where there was no
  old file what was written stays.
- `open_db` is said to end the program if a backup cannot be restored; it returns NULL.
- A write that fills the output ring from its wrap position on may lap it, and a read that waits for more than there is may
  let the input ring be overrun. `Rings.QueuesUnlessLapped` and `Rings.ReadsUnlessOverrun` give the exact conditions, which
  are checked before the call.
- The guard of the block loop in `MD5Update` is an addition in 32 bits. `Md5.Context.Update` asks that it does not wrap; where it
  would, the loop goes on past the end of the input (`Md5.GuardWraps`).
- News numbers stay increasing exactly as long as the last of a type is not the largest 32-bit number
  (`NewsFormat.AddKeepsNumbering`).
- `add_ignore` extends a record that is out of date without changing its service and line, so that a query in between, which
  answers that the nick is not ignored, changes what later queries answer (`IgnoreMap.OldGrounds`). As long as the
  clock does not go back, the times are not affected (`IgnoreMap.LazinessHidden`). Service and line are, exactly if somebody is told those of a record that was out of
  date, asked for and added again for another reason (`IgnoreMap.GroundsHidden`).
- `add_ignore` cuts a nick to the size of its buffer, `get_ignore` does not, so that a nick is found again exactly if it
  is not cut (`IgnoreMap.LongNickMissed`).

## Model

| member | source | states |
|---|---|---|
| Servers.Network.DelServer | servers.c:24-49 | the server leaves the list, the others keep their order and links, the cache does not point to it, and the counters balance |
| Servers.Network.RecursiveSquit | servers.c:51-68 | exactly the servers below one leave the list, whatever the shape of the tree, and the counters balance |
| Servers.Network.AddServer | servers.c:71-85 | the new server is at the head of a well-linked list, and the count is one more |
| Servers.Network.FindServername | servers.c:88-105 | the cached search returns what a scan of the list would |
| Servers.Network.FindServernumeric | servers.c:108-126 | the same for the first character of the numeric |
| Servers.ScanOnly | servers.c:88-105 | among distinct names the scan finds the one server of a name, wherever it is, so that the cache cannot change the result |
| Servers.ScanNumericOnly | servers.c:108-126 | the same for numerics with distinct first characters |
| CString.SameNameMeans | compat.c:48-64 | stricmp finds two names equal exactly if they have the same length and at every place the same character, or two letters whose codes differ by 32 |
| CString.SameLeadMeans | servers.c:108-126 | strncmp of one character compares the first characters, terminators included |
| Servers.Tally | servers.c:24-68 | for any set of servers taken out, list length and user sum split into what is left and what has gone |
| Servers.UsersEach | servers.c:24-68 | the sum of users goes over every server |
| Servers.Network.DoServer | servers.c:155-204 | the new server is put first in the list and hangs from the server that the source names, by name or under P10 by numeric, which keeps list and tree valid |
| Servers.Network.DoSquit | servers.c:213-257 | a server with a hub goes from list and tree with all below it, the others keep their order; one whose hub was never found stays without those below it, and the network stays valid exactly if there were none; nodos and usuarios are the number of servers and users that have gone |
| Servers.Network.NoStalePointer | servers.c:24-68 | next, prev, hub, hijo, rehijo and lastserver of a valid network point only to listed servers |
| Servers.CutSound | servers.c:51-68 | a forest without a subtree is a forest: hubs and children still agree |
| Servers.RosterCut | servers.c:213-257 | list, tree and count agree after a subtree has gone from all of them |
| Servers.GraftSound | servers.c:155-204 | a forest with a new leaf is a forest |
| ServerRuns.FallenIsUnder | servers.c:51-68 | the entries that fall with a server, computed in one pass over the list, are those whose chain of hubs leads to it |
| ServerRuns.FallenIsSubtree | servers.c:213-257 | the same on the level of messages: a server falls exactly if a path of hubs leads from it to the one that is cut off |
| ServerRuns.SquitView | servers.c:213-257 | pruning the forest is dropping the fallen entries from the list of entries |
| ServerRuns.GraftView | servers.c:155-204 | grafting a server is adding its entry |
| ServerRuns.HubFound | servers.c:155-204 | a new server comes first, with the hub that the source names: by name without regard to case, or under P10 by the first character of the numeric |
| ServerRuns.HandleServer | servers.c:155-204 | the linked structure after SERVER stands for the list of entries after SERVER |
| ServerRuns.HandleSquit | servers.c:213-257 | the same for SQUIT, with nodos and usuarios |
| ServerRuns.Run | servers.c:155-257 | over every admissible run, under P10 or not, the structure stays valid, servercnt is the length of the list, and the structure stands for the list of entries after the run |
| ServerRuns.RunFromStart | servers.c:155-257 | so it is for runs from the start of the program |
| ServerRuns.RunsStayWellFormed | servers.c:155-257 | over every run names stay distinct and every hub is listed |
| ServerRuns.SquitUndoesServer | servers.c:155-257 | SERVER followed by SQUIT of the same name changes nothing, exactly if the hub was found |
| ServerRuns.SquitOrder | servers.c:213-257 | two SQUITs remove the union of two subtrees, and one inside the other adds nothing |
| Timeouts.TimeoutList.AddTimeout | timeout.c:91-104 | the new timer is at the head of the list and has a new identity |
| Timeouts.TimeoutList.DelTimeout | timeout.c:110-127 | exactly that timer leaves the list, if it is there at all |
| Timeouts.TimeoutList.CheckTimeouts | timeout.c:46-81 | the walk over the linked list, with callbacks that change it, computes the function Check of the list and the callbacks, terminates, and leaves the list well linked |
| TimerRuns.VisitFired | timeout.c:46-81 | no timer added during the run fires in it; timers fire once each, in list order |
| TimerRuns.VisitExactly | timeout.c:46-81 | a timer fires exactly if it is due and none that fires before it deletes it |
| TimerRuns.VisitLeft | timeout.c:46-81 | a timer is left exactly if nobody deletes it and it has not fired, or repeats |
| TimerRuns.VisitYoung | timeout.c:46-81 | the timers added are those that all actions together leave on an empty list |
| TimerRuns.CheckMeaning | timeout.c:46-81 | all of it for a whole run, for every list and every set of callbacks that do not delete the timer running |
| Rings.LengthOfLive | sockutil.c:25-31 | the length computed from two positions is that of the live region; equal positions mean empty, and full means one slot left |
| Rings.PushBack | sockutil.c:220-277 | bytes stored at the end of the ring come last in the queue, across the wrap |
| Rings.PopFront | sockutil.c:183-215 | bytes taken at the start of the ring come first in the queue, across the wrap |
| Rings.OutRing.FlushWriteBuffer | sockutil.c:183-215 | whatever number of bytes the socket takes, those sent and those live are all that was accepted, in order; if it is ready and there are any, some are sent, and fewer than it takes only up to the end of the ring or the queue |
| Rings.OutRing.BufferedWrite | sockutil.c:220-277 | the bytes accepted join the queue; all of them if they fit the free space, fewer only if the ring is full |
| Rings.FreeSpaceQueues | sockutil.c:220-277 | a write that fits the free space never laps the ring |
| Rings.QueuesUnlessLapped | sockutil.c:220-277 | the condition on positions and length under which no sequence of partial flushes lets a write lap the ring: both directions |
| Rings.InRing.Fill | sockutil.c:36-100 | whatever the socket delivers joins the queue, and no unread byte is overwritten; what it has at first is taken as far as it fits in one piece, if there is room |
| Rings.InRing.BufferedReadOne | sockutil.c:105-154 | the next byte of the queue is returned; EOF only if the queue is empty |
| Rings.InRing.BufferedRead | sockutil.c:36-100 | the bytes returned, with those still queued, are those queued before and received since; all are returned if they are there |
| Rings.InRing.ReadOneByOne | sockutil.c:105-154 | n single reads return the same n bytes and leave the same queue |
| Rings.ReadsUnlessOverrun | sockutil.c:36-100 | the condition under which no sequence of deliveries lets a read overrun the ring: both directions |
| Rings.InRing.FirstInFirstOut | sockutil.c:36-154 | bytes are returned in the order in which they were received, none lost, none twice |
| Rings.InRing.Sgetc | sockutil.c:326-336 | the next byte, that pushed back first |
| Rings.InRing.Sungetc | sockutil.c:338-341 | what is pushed back is read next, in place of what was pushed back before; the byte just returned is as if it had not been read |
| Rings.InRing.Sgets | sockutil.c:349-375 | one line with its newline, or as much as the buffer takes of a longer one, and what of that is lost; if bytes wait in the ring it does not time out, and returns the line that waits, or the start of a longer one |
| Rings.InRing.ReadLines | sockutil.c:349-375 | if every line of the stream queued and received fits the buffer, the lines returned are its first lines, and the queue is the rest of it; they are as many as were asked for, if as many wait |
| Rings.LinesAreTheLines | sockutil.c:349-375 | lines at the start of a stream are the stream's own first lines, whatever follows |
| Md5.BlocksConcat | encrypt.c:140-177 | hashing all full blocks of a concatenation is hashing those of the first part, then those of its rest with the second |
| Md5.CountAdd | encrypt.c:140-177 | two 32-bit words with a carry count bits modulo 2 to the 64 |
| Md5.CountIndex | encrypt.c:140-177 | the buffer index is the length modulo 64 |
| Md5.OneBlock | encrypt.c:140-177 | one full block is one transformation of the state |
| Md5.InitialWords | encrypt.c:124-135 | the state starts with the words whose bytes section 3.3 of RFC 1321 gives |
| Md5.Context.Update | encrypt.c:140-177 | the context stands for the message so far with the input appended: state, leftover bytes and bit count |
| Md5.GuardWraps | encrypt.c:140-177 | where the 32-bit guard wraps, the loop enters a turn for which there are not 64 bytes left |
| Md5.Context.UpdateAll | encrypt.c:140-177 | any sequence of updates stands for one of the concatenation |
| Md5.PiecesDoNotMatter | encrypt.c:140-177 | two contexts that have been given the same bytes in different pieces agree |
| Md5.Context.Final | encrypt.c:182-206 | the digest is that of the padded message, and nothing of it stays in the context |
| Md5.DigestWords | encrypt.c:182-206 | the digest is the words A, B, C, D of the state, in this order, low-order byte first |
| Md5.PaddedShape | encrypt.c:182-206 | padding as in sections 3.1 and 3.2 of RFC 1321: whole blocks, the message, a one bit, zeros and nothing else, and the bit length in the last 8 bytes |
| Md5.LengthFieldValue | encrypt.c:182-206 | the length field read as a number is the bit length |
| Md5.Encode | encrypt.c:303-316 | the loop encodes words little-endian and touches no bytes behind them |
| Md5.DecodeEncode | encrypt.c:303-331 | decoding what was encoded gives the same words |
| Md5.EncodeDecode | encrypt.c:303-331 | encoding what was decoded gives the same bytes |
| Md5.Decode | encrypt.c:321-331 | the loop decodes little-endian words and touches no others |
| DataFiles.OpenDbWrite | datafiles.c:103-184 | the new file holds the version number and the old one is kept under another name or open; how many failures that survives; and some name holds the old contents at every moment |
| DataFiles.PutBack | datafiles.c:217-243 | the old contents get their name back by rename, or by copying if that fails |
| DataFiles.RestoreDb | datafiles.c:217-258 | after any writes the name leads to exactly the old bytes if no more calls fail before the last one than there are ways back; some name holds them until that call, and if it fails still does; without an old file what was written stays |
| DataFiles.CopyBack | datafiles.c:227-241 | the copy loop leaves exactly the old contents, whatever the new file held |
| DataFiles.CloseDb | datafiles.c:266-276 | the file stays and its backup name goes |
| DataFiles.PutAll | datafiles.c:306-339 | a row of fputc calls appends all its bytes, or those before the one that failed, and changes nothing else |
| Records.WriteString | datafiles.c:381-397 | length, text and terminator are appended, up to where a call failed; texts are cut at 65534 bytes |
| Records.WrittenBigEndian | datafiles.c:306-339 | numbers are written in two and four bytes, most significant first |
| Records.ReadBigEndian | datafiles.c:294-326 | so they are read, from any bytes |
| Records.StringShape | datafiles.c:381-397 | a string is its length with the terminator in two bytes, its text and the terminator; NULL is two zero bytes |
| Records.LargestText | datafiles.c:381-397 | a text is cut exactly if its length with the terminator does not fit 16 bits |
| Records.ReadInt16 | datafiles.c:294-304 | the next two bytes as a number, or an error only if they are not there |
| Records.ReadInt32 | datafiles.c:314-326 | the same for four bytes |
| Records.ReadString | datafiles.c:361-379 | the next string as its length says, or an error only if it is not all there |
| Records.GetFileVersion | datafiles.c:21-43 | the version, or 0 if it is missing or out of range |
| Records.VersionMeans | datafiles.c:21-43 | the version is the number in the first four bytes if it is from 1 to 8 |
| Records.OpenDbRead | datafiles.c:71-99 | the file of that name, at its start |
| Records.ReadBackInt16 | datafiles.c:294-311 | a 16-bit number comes back as written |
| Records.ReadBackInt32 | datafiles.c:314-339 | a 32-bit number comes back as written |
| Records.ReadBackString | datafiles.c:361-397 | a string comes back as written, cut if too long, NULL as NULL |
| Records.ReadBackAll | news.c:148-224 | if one record comes back, a whole list of records does |
| NewsFormat.LastIsLargest | news.c:379-407 | in a numbered list the last number of a type is the largest, and 0 only if there is none |
| NewsFormat.AddKeepsNumbering | news.c:379-407 | ADD keeps numbers increasing within each type, exactly if the last is below the largest |
| NewsFormat.NextIsOneMore | news.c:379-407 | the first number of a type is 1, and each one more than the last; other types do not matter |
| NewsFormat.DelKeepsNumbering | news.c:444-460 | DEL keeps them so |
| NewsFormat.DelOfNumber | news.c:444-460 | DEL of a number removes one item if there is one of that number and type, else none |
| NewsFormat.WithoutIsSublist | news.c:444-460 | exactly the items not asked for are left |
| NewsFormat.NewsRoundTrip | news.c:148-224 | what is written reads back as version, count and items in order |
| NewsFormat.ItemLayout | news.c:207-224 | the fields of an item stand in the file in this order and size: type, number, text, nick, time |
| NewsFormat.NewsLayout | news.c:207-224 | in front of the items stand version 8 and their number |
| NewsFormat.GetWhole | news.c:148-188 | items whose nicks are read whole are those of the file |
| NewsFormat.FiledExactly | news.c:148-224 | an item comes back unchanged exactly if its text has at most 65534 bytes and its time fits 32 bits |
| NewsFormat.AllFiledExactly | news.c:148-224 | the same for a list; its numbering survives in any case |
| News.NewsList.AddNewsitem | news.c:379-407 | a full list is left alone; otherwise one item is appended with the next number of its type, the text, and the nick cut to fit; the array grows to 8 and then doubles |
| News.NewsList.DelNewsitem | news.c:444-460 | the list without the items asked for, and how many went |
| News.NewsList.SaveNews | news.c:207-224 | without failures the file holds the whole list; a committed file does exactly if no call failed between opening and closing; otherwise the old file is back if failures can be borne, whatever the last call does; with a backup some name holds the old or the new list at every moment |
| News.NewsList.LoadNews | news.c:148-188 | the items of the file in order, all or none, or as many as there are if loading is forced; if calls fail, the items are those that reading so much of each nick gives, and unforced loading overlooks no other failure; capacity at least the count; bad versions are fatal |
| News.Capacity | news.c:160-166 | room for the count and for growth, never above 32767 |
| News.Restart | news.c:148-224 | a list saved by one process and loaded by the next is the same list |
| Wild.DoMatchWild | misc.c:355-391 | the loop with its recursion and its first-character shortcut computes Found, and terminates |
| Wild.Sound | misc.c:355-391 | whatever is found matches by the usual meaning of the pattern |
| Wild.FindsSqueezed | misc.c:355-391 | whatever matches the pattern without the stars that stand before another wildcard is found |
| Wild.FindsOnlySqueezed | misc.c:355-391 | in a string without wildcard characters nothing else is found |
| Wild.GlobNoStar | misc.c:88-94 | a pattern without stars means the strings of its length with its characters where it has no question mark |
| Wild.GlobPlain | misc.c:88-94 | a pattern without wildcards means itself, or itself without regard to case |
| Wild.GlobConcat | misc.c:88-94 | two patterns behind each other mean the strings that divide into one of each; with GlobNoStar and GlobAnything that says what every pattern means |
| Wild.GlobAnything | misc.c:88-94 | a star means every string |
| Wild.Exact | misc.c:355-391 | patterns that are not lossy are matched exactly, for every string |
| Wild.NoStarQuestion | misc.c:355-391 | a pattern in which no star stands right before a question mark is not lossy |
| Wild.ExactlyWhen | misc.c:355-391 | lossy patterns are exactly those that miss some string |
| Wild.NoCase | misc.c:355-402 | matching without regard to case is matching the lower-case pattern and string |
| Wild.MatchWild | misc.c:394-397 | sound, and complete for patterns that are not lossy |
| Wild.MatchWildNocase | misc.c:399-402 | the same without regard to case |
| NumList.FlagNumbers | misc.c:418-462 | the flags set are those of the numbers meant, all indices lie within the array, and the bounds enclose them |
| NumList.ListedOnce | misc.c:464-478 | the numbers called are those of the set, each once, in ascending order |
| NumList.CallsAll | misc.c:464-478 | without a negative result there is a call for every number |
| NumList.CallsConcat | misc.c:464-478 | calls for more numbers follow those before, with their sums and counts added, unless one result was negative: then there are none |
| NumList.StrtolMeans | misc.c:433-462 | a number is read behind white space and a sign, in base 10, up to what is no digit |
| NumList.ToIntMeans | misc.c:433-462 | a long of 64 bits made an int keeps its value modulo 2 to the 32, one of 32 bits ends at the largest and smallest int |
| NumList.ProcessNumlist | misc.c:418-485 | the calls stop at the first negative result; the sum of the others and the number of calls are returned |
| NumRanges.ListMeaning | misc.c:433-462 | a well-formed list means the union of its ranges, cut at 65536, if they survive the conversion of their numbers; a single range exactly then |
| NumRanges.ListIsRead | misc.c:433-462 | every well-formed list means the union of its ranges as they are read, for any digits |
| NumRanges.ReadAsMeant | misc.c:433-462 | a range is read as it is meant exactly if its numbers survive being made ints |
| NumRanges.SmallSurvives | misc.c:433-462 | numbers below 2 to the 31 do, and any number if a long has 32 bits |
| NumRanges.WrapsRound | misc.c:433-462 | a number of 2 to the 32 and more does not, if a long has 64 bits |
| NumCuts.ListCut | memoserv.c:699-783 | an ascending list cut off anywhere means only numbers below its last |
| NumCuts.ListInBuffer | memoserv.c:699-783 | in a buffer of 512 characters it means its numbers exactly if it fits |
| NumEntries.LedIsTaken | misc.c:433-462 | strtol takes nothing of an entry exactly if no digit follows its spaces and sign |
| NumEntries.ListIsSum | misc.c:433-462 | every list, of any characters, means the union of what its entries mean one by one |
| NumEntries.UnledIsZero | misc.c:433-462 | an entry that does not lead with a number means all from 0 to the number behind its dash, and 0 alone if it has no dash |
| NumEntries.JunkIsZero | misc.c:433-462 | so it does at the start of a list or alone in it, before any other entries |
| NumEntries.WhatIsMeant | misc.c:433-462 | every list, of any characters, means what its entries with a number mean, and all from 0 to the largest number behind a dash of the others |
| NumEntries.IgnoredExactly | misc.c:433-462 | the entries without a number are ignored, in any list, exactly if the others mean all from 0 to that number |
| NumEntries.IgnoredWithoutDashes | misc.c:433-462 | for entries without dashes: exactly if all have a number, or 0 is meant anyway |
| NumEntries.LostNumber | misc.c:433-462 | a number behind other characters is lost |
| NumEntries.NegativeIsZero | misc.c:433-462 | a negative first number counts as 0, any other as it is |
| MemoList.SendKeepsOrder | memoserv.c:381-398 | numbers stay at least 1 and strictly increasing, also when they wrap and all are renumbered |
| MemoList.SendMeans | memoserv.c:381-398 | the new memo is the last, unread and as it was sent; the others are as they were, unless the numbers are used up, and then only their numbers change |
| MemoList.CancelUndoesSend | memoserv.c:381-457 | CANCEL after SEND puts the list back as it was, exactly if the numbers were not used up |
| MemoList.RemoveOne | memoserv.c:287-309 | in an ordered list a number removes the one memo that has it |
| MemoList.RemoveAt | memoserv.c:445-454 | removing by the number of a memo removes that memo |
| MemoList.WithoutKeepsOrder | memoserv.c:287-309 | deletion keeps the numbers increasing |
| MemoList.DelMeaning | memoserv.c:699-783 | for any set of numbers: exactly the memos of other numbers are left, the count is that of those gone, and the report read as a number list means exactly their numbers, as far as it is printed exactly if it fits |
| MemoServ.MemoInfo.Send | memoserv.c:366-398 | a list that is full or closed is left alone unless an administrator sends; otherwise the memo is appended, and order is kept |
| MemoServ.MemoInfo.DelMemo | memoserv.c:287-309 | the first memo of a number leaves the array |
| MemoServ.MemoInfo.Cancel | memoserv.c:443-457 | precisely the newest unread memo from a sender goes |
| MemoServ.MemoInfo.DelMemoCallback | memoserv.c:699-725 | one deletion and what it adds to the report in its buffer of 512 characters, in which room for the terminator is always left |
| MemoServ.DelVars.Snprintf | compat.c:15-40 | as much of a text as there is room for comes behind what the buffer holds, with a terminator, and its length is returned |
| MemoServ.MemoInfo.DelEach | misc.c:464-478 | the loop over the flags with this callback is the sequence of calls for the numbers in order |
| MemoServ.MemoInfo.Del | memoserv.c:755-804 | which reply is given when, which memos are left, and that the reply is as much of the report as fits, which names exactly the numbers gone if and only if that is all of it |
| MemoServ.DigitCodes | memoserv.c:755-804 | a number list is told by a first character from 0 to 9 |
| LangText.LinesFit | lang/langcomp.c:110-124 | if lines fit the buffer, getlines returns the lines of the file without comments and blanks |
| LangText.SourceLine | lang/langcomp.c:110-124 | a line ends with a newline, which does not belong to it; one that is empty or starts with # is left out |
| LangText.LastLine | lang/langcomp.c:110-124 | the last line counts without a newline |
| LangText.RunMeaning | lang/langcomp.c:187-225 | after all lines each string is what its definition says, if each name occurs at most once; only text before the first name makes the exit status 1 |
| LangText.SecondDefinition | lang/langcomp.c:187-225 | a name that comes again is an error, and its text goes on |
| LangText.UnknownName | lang/langcomp.c:187-225 | text behind an unknown name goes nowhere |
| LangText.LinedIsJoined | lang/langcomp.c:187-225 | a newline after each line is a newline between the lines and one at the end |
| LangFile.Located | lang/langcomp.c:227-247 | entry i of the table leads to text i |
| LangFile.Tiled | lang/langcomp.c:227-247 | the texts cover the file from the end of the table to its end |
| LangComp.Compiler.NextLine | lang/langcomp.c:110-124 | the next line that is no comment and not blank |
| LangComp.Compiler.FindString | lang/langcomp.c:94-103 | the place of a name in the index, or -1 |
| LangComp.Compiler.TakeLine | lang/langcomp.c:187-225 | what one line does to the strings, the current string and the error count |
| LangComp.Compiler.Accumulate | lang/langcomp.c:187-225 | the loop takes the lines in order until the file or the errors run out |
| LangComp.Compiler.Emit | lang/langcomp.c:227-247 | count, table and texts are written, each text without its last newline |
| LangComp.Compiler.Compile | lang/langcomp.c:187-247 | the output is the compiled form of what the definition file means |
| LangComp.CompiledMeaning | lang/langcomp.c:187-247 | the texts compiled are those the file defines, joined by newlines |
| LangComp.DefinitionRoundTrip | lang/langcomp.c:187-247 | a file that defines messages, rendered with a tab before each line, means just these messages |
| Language.LoadCompiled | lang/langcomp.c:227-247 | entry i of a compiled file, read back, is its text, NULL if it is empty, an error if it is over 64k |
| Language.CompileAndLoad | lang/langcomp.c:187-247 | a definition file compiled and loaded gives every message its text |
| IrcLine.SplitBuf | process.c:146-176 | cutting the buffer up in place leaves each pointer of the vector at its own parameter, and the vector is never overfull, whatever colon_special is |
| CString.SpaceCodes | process.c:146-176 | white space is the space and the codes 9 to 13 |
| CString.SpaceSkipped | process.c:146-176 | all of it is skipped that comes first, and no more |
| IrcLine.ColonsMatter | process.c:146-176 | the parameters are the plain words exactly if no word begins with a colon |
| IrcLine.Process | process.c:202-248 | source, command and parameters of a line, cut to the sizes of their buffers; under P10 a source without a colon, and the nick for a numeric |
| IrcLine.IgnoredLines | process.c:202-248 | a line without a command is ignored, and only the first 511 characters count |
| IrcLine.LineRoundTrip | process.c:146-248 | a line rendered as in section 2.3.1 of RFC 1459 is split into the same parts exactly if no parameter without a colon begins with white space, under P10 too |
| IrcLine.TabLost | process.c:146-176 | a parameter that begins with a tab loses it |
| IrcLine.NumericRoundTrip | process.c:213-240 | the same for a line as P10 has it: three characters are a numeric, and the source is the nick that has it, or the line is ignored; any other word is the source itself |
| Ignore.IgnoreTable.AddIgnore | process.c:28-56 | the hashed lists stand for the map with the time of that nick set or extended, and the service and line of a new record |
| Ignore.IgnoreTable.GetIgnore | process.c:93-113 | the answer is that of the map, and a record out of date is taken out of its list |
| IgnoreMap.LazinessHidden | process.c:28-113 | over every run on which the clock does not go back, the times answered are those of a map from which nothing is removed |
| IgnoreMap.AddMeans | process.c:28-56 | a nick that is added is ignored up to delta seconds behind the time it was ignored to, or behind now; service and line of a new record are kept as far as they fit; other nicks are as before |
| IgnoreMap.AskMeans | process.c:93-113 | asking for a nick changes no answer from then on |
| IgnoreMap.GroundsHidden | process.c:28-113 | over every such run the answers, service and line included, are those of that map exactly if none is about a nick that was out of date when asked for and has then been added again for another reason |
| IgnoreMap.OldGrounds | process.c:28-113 | a record extended out of date keeps its old service and line, unless a query has come before |
| IgnoreMap.ClockBack | process.c:93-113 | if it does go back, a removed record is missed |
| IgnoreMap.LongNickMissed | process.c:28-113 | a nick that is added is found again exactly if it is not cut |

## Left out

- Servers.Network.DoServer: names are distinct, under P10 first characters of numerics too, and a server does not name itself as source.
- Servers.Network.DoSquit: SQUIT of the uplink, whose hub is itself, is excluded: do_squit then follows a null or freed pointer. User counts are changed elsewhere, and the users of a server that goes are dropped in users.c.
- ServerRuns.Run: so is SQUIT of a server without a hub that has children, which leaves the structure invalid.
- Timeouts.TimeoutList.CheckTimeouts: the address of a freed timer is not used again; callbacks do not delete the timer that is running.
- Rings.OutRing.BufferedWrite: writes that could lap the ring are excluded by the condition proved exact; errno, logging and the totals of bytes moved are not modelled.
- Rings.InRing.BufferedRead: reads that could be overrun are excluded by the condition proved exact.
- Md5.Context.Update: lengths at which the 32-bit guard of the block loop wraps are excluded.
- Md5.Context.Final: the digest buffer is not the context's own buffer. MD5Transform is a parameter; encrypt and check_password are left out.
- DataFiles.OpenDbWrite: memory is never short, and stdio writes through at once.
- Records.GetFileVersion: the four bytes are read from left to right, which C leaves open.
- News.NewsList.SaveNews: read_buffer and write_buffer are those of datafiles.h; the warning to operators is left out.
- News.NewsList.LoadNews: a forced load whose count cannot be read is left open, as the count is in C.
- MemoServ.MemoInfo.Send: a list of 32767 memos takes no more here; in C its 16-bit count would overflow. Access checks, delays and notices are left out.
- MemoServ.MemoInfo.Cancel: numbers are increasing, as SEND, CANCEL and DEL keep them.
- MemoServ.MemoInfo.Del: snprintf is that of the C library, with the number of characters written as its result (configure asks for that, and compat.c sees to it); the replacement in vsnprintf.c, for systems that have none, is left out. Callbacks are functions of their state for process_numlist itself; for DEL its second loop is modelled with the callback in it.
- Wild.ExactlyWhen: some character is left that the pattern does not use.
- LangComp.Compiler.Compile: the index is given as a list of names; reading it, warnings and line numbers are left out.
- Language.LoadLang: models load_lang, lines 54 to 133 of language.c, a file that is not UTF-8 text and has no row above; the file is read without failures.
- IrcLine.Process: the nick of a numeric is a parameter; finding and calling the handler of a command is left out.
- Real sockets, select, processes, signals, and memory that runs out.
- users.c, channels.c, nickserv.c, chanserv.c and the other services: users, channels, registration and access.
- almacena_debugserv and get_debugserv in process.c, strnrepl and stristr in misc.c, and vsnprintf.c.
- The P10 code tables, config.c, import-db.c, help texts, message lookup and logging: they would add easy members only.
