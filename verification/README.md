# A verified model of the OS/2 ISO file system

The file system has two halves. A ring-0 driver (`ifsdriver/stubfsd.c`) turns every call of the
kernel into a request and hands it to a ring-3 daemon (`ifsdaemon/`), which reads an ISO 9660 /
Joliet image and answers. This project models both halves in Dafny and proves what they promise
to each other and to a program that lists directories and reads files.

Check everything with `dafny verify dfyconfig.toml`.

## What is modelled

**The request exchange** (`Exchange*.dfy`, `Driver.dfy`). Any number of client threads, the
daemon thread, starts and stops of daemons. One buffer, the semaphores semSerialize, semRqAvail
and semRqDone, and pidDaemon. Every semaphore call, every read or write of pidDaemon and every
access to the buffer is a step of its own; no group of source lines is taken as one
uninterrupted step. The daemon's handling of a request is an arbitrary state transformer. A
thread that enters the driver several times is several calls. The theorems are about a
transition relation over the program counters of all threads; the class in `Driver.dfy` holds
the variables, changes them in place one statement at a time, and runs any schedule of the
threads as a run of that relation.

A run is called *clean* if each of its starts ends with semSerialize clear. The invariant holds
all along a run if and only if the run is clean (`InvExactly`). For histories that were not
clean, `ExchangeRestart.dfy` says when a start makes the exchange new again.

**Directory searches** (`Wildcard`, `Names`, `EaList`, `FileRecord`, `Find`, `FindSession`,
`Program`). The matcher is a recursive function as in the source. The search data is a class whose cursor and
list are updated in place, upper-casing and attribute rewriting included; the record and EA
writers work on a byte array. Each method is proved against a function of values, and the
theorems about whole searches are about these functions; `Program.dfy` is a program that lists a
directory through the calls and receives what these theorems say.

**Reading images** (`Bytes`, `IsoDir`, `IsoPath`, `Descriptors`, `FileIo`). The parsers loop over
a sector buffer. The encoder of ECMA-119 directories they are compared with is written from
sections 6.8.1, 7.3.3 and 9.1 of that standard. Sizes, positions and counts of reads and seeks
wrap around at 32 bits as in the source.

**Volumes and handles** (`Books`, `Volumes`, `Calls`). The volumes form a doubly linked list of
objects. A ghost log records the operations done so far; the invariant says that list and
counters are what a replay of the log gives, and the theorems are about all logs.

## Where the source does less than it says

Each of these is stated exactly: for which inputs or states the promise holds, and that it
holds for no others. Where the failing input is not plain from the condition, one is given.

- The comment at `ifsdriver/stubfsd.c:250-258` says that a stop wakes all blocked threads. It
  does so, in a state that satisfies the protocol's invariant, exactly if no client is between
  its second look at pidDaemon (line 135) and its arming of semRqDone (line 158) when line 259
  posts that semaphore (`DrainsExactly`); a run from the loaded driver that ends in such a stop
  is given (`StopCanStrand`).
- `daemonStarted` writes pidDaemon (line 229) before it sets up the semaphores (232-235), so a
  client can slip in. In a state that satisfies the protocol's invariant, a start keeps it
  exactly if line 235 finds semSerialize clear (`StartEstablishes`), so the protocol holds all
  along a run exactly if all of its starts ended with semSerialize clear (`InvExactly`).
  Otherwise two clients can be inside (`StartAdmitsTwo`), or a request is lost; runs from the
  loaded driver show both (`StartCanAdmitTwo`, `StartCanLoseRequest`). After a history in which some start went wrong, semSerialize is not
  enough: a later start makes the exchange as new exactly if it finds nobody inside and
  semRqAvail set (`RestartExactly`, `RestartIsNew`). The function also falls off its end
  without a value; the model takes a start to succeed.
- `getDirEntries` does not look at records that begin behind byte 1977 of a sector, which the
  standard allows (`ReadsExactly`, `LateRecord`).
- `isoQueryIsoEntryFromPath` looks a component up in what the one before it names, also if that
  is a regular file, and then parses the data of the file as a directory. What it finds is what
  the tree of directories has, on every path, exactly if no regular file reached through
  directories has data in which a name is found (`WalkIsTreeExactly`). On a given image a path
  leads through a file, and `fsOpenCreate` opens what it finds there (`FileMisleads`,
  `OpensThroughFile`).
- `isoQueryDirExtentFromPath` takes a directory at extent 0 for the root. The two resolvers
  agree on every path exactly if no directory that a path reaches through directories, the root
  included, has extent 0 (`ResolversAgreeExactly`); an image on which they disagree is given
  (`ZeroExtentMisleads`).
- Positions in search records are those of a 32-bit counter that nobody initialises: of two
  received ones the later is greater exactly if the counter did not wrap between them
  (`PositionsIncrease`, `PositionsCanWrap`; in a list of more than 2^32 entries it could pass
  the earlier one again).
- A forced detach frees the volume's data, and the comment at `ifsdaemon/find.c:528-531` expects
  closes after it. No handle ever outlives its volume exactly if no detach is forced while one
  is out (`DanglesExactly`), and exactly if one is, a close can touch freed data
  (`FreedExactly`). If another volume is attached at the same address by then, its counters
  are the handles out on it less those that were left, so they are right exactly if none was
  left (`CountersCount`); `ForcedDetachDangles` is a run to a counter of -1.
- `attachVolume` scans descriptors without a limit; it ends exactly if one of those within the
  image stops it (`ScanDescriptors`, `ScanDecides`); on an empty file it never ends
  (`ShortImageNeverStops`).
- `fsRead` at a position behind the end of a file reads what follows the file in the image
  (`ReadStaysInFile`).
- `fsChgFilePtr` accepts negative offsets from the beginning, and refuses or wraps targets of
  2^31 and more (`MoveExact`).
- The fall-back of `storeFileInfo` to level 2 works if the attributes do not fit; if they fit
  and the name does not fit behind them, there is an overflow even where the level 2 record
  would have fitted (`OutcomeExact`).

## Model

| member | source | states |
|---|---|---|
| ExchangeInvariant.InvStep | ifsdriver/stubfsd.c:122-171 | Every step of a client, the daemon, a stop or a cleanly ending start keeps the invariant: one owner of semSerialize at most, the buffer and the daemon's position match the owner's position, no request is posted twice or lost, and the log is a sequential run |
| ExchangeRuns.InvRun | ifsdriver/stubfsd.c:122-171 | The same over every clean run (all of whose starts ended with semSerialize clear), for any number of clients, stops and restarts |
| ExchangeRuns.InvExactly | ifsdriver/stubfsd.c:229-236 | From a state that satisfies the invariant, it holds after every prefix of a feasible run if and only if all starts of the run ended with semSerialize clear |
| ExchangeRuns.MutualExclusion | ifsdriver/stubfsd.c:120-148 | In every state of a run all of whose starts ended with semSerialize clear, at most one thread, the stopping daemon included, is between acquiring and clearing semSerialize |
| ExchangeRuns.Linearizable | ifsdriver/stubfsd.c:899-936 | Over every run all of whose starts ended with semSerialize clear: a call that returns with a reply was handled with its own request and that very reply; every handled request is that of its caller; the replies are those of a sequential daemon; requests are handled in the order semSerialize was granted, each at most once |
| ExchangeRuns.RealTimeOrder | ifsdriver/stubfsd.c:899-936 | Over every such run, a handled call that had returned, with whatever outcome, before another was granted the buffer is handled before it |
| ExchangeRuns.UpRun | ifsdriver/stubfsd.c:126-130 | From any state with a daemon in its loop, while no stop occurs: the daemon stays up, and each call that enters ends with ERROR_STUBFSD_DEADLOCK if the daemon's process makes it and with a reply or an argument error otherwise, whatever earlier calls returned |
| ExchangeRuns.StartEstablishes | ifsdriver/stubfsd.c:229-236 | In a state that satisfies the invariant, the last step of a start keeps it if and only if it finds semSerialize clear |
| ExchangeRuns.Restart | ifsdriver/stubfsd.c:229-275 | After a history all of whose starts ended with semSerialize clear, one more such start leaves the daemon in its initial state and waiting, no request posted and nobody inside |
| ExchangeRuns.NotRedelivered | ifsdriver/stubfsd.c:246-275 | Over runs all of whose starts end with semSerialize clear, from a state that satisfies the invariant, a request granted before a stop completed is never handled by a later daemon |
| ExchangeRestart.RestartExactly | ifsdriver/stubfsd.c:229-236 | After every history, however its starts ended, a start makes the exchange as new if and only if its last step finds nobody inside and semRqAvail set |
| ExchangeRestart.RestartIsNew | ifsdriver/stubfsd.c:229-275 | From such a start on, whatever the history: mutual exclusion, replies of a new sequential daemon to their own requests, and no call that had returned, such as one posted to a dead daemon, is handled again |
| ExchangeRuns.StartCanAdmitTwo | ifsdriver/stubfsd.c:229-236 | A run in which a client slips into a start and two clients fill the buffer at once |
| ExchangeRuns.StartAdmitsTwo | ifsdriver/stubfsd.c:229-236 | From any state that satisfies the invariant in which a start is about to clear a semSerialize that is set, any call of another process still to enter can join the thread that is inside |
| ExchangeRuns.StartCanLoseRequest | ifsdriver/stubfsd.c:229-236 | A run in which a request posted during a start is lost and both sides wait |
| ExchangeProgress.MeasureDecreases | ifsdriver/stubfsd.c:122-171 | Every step other than a start decreases a measure over the positions of all threads |
| ExchangeProgress.NoDeadlock | ifsdriver/stubfsd.c:154-171 | While a daemon is in its loop and a call has not returned, a thread can go on: neither a request nor a completion is lost |
| ExchangeProgress.EveryCallReturns | ifsdaemon/isofsdmn.c:548-578 | From any state that satisfies the invariant with a daemon in its loop, runs without a stop are bounded and end only when every call has returned, those that entered since with deadlock error, reply or argument error as above |
| ExchangeProgress.DrainCompletes | ifsdriver/stubfsd.c:242-276 | Once semRqDone is posted and nobody can arm it again, runs are bounded and end with the stop complete, semSerialize clear, and every waiting or entering call returned with ERROR_STUBFSD_DAEMON_NOT_RUNNING |
| ExchangeProgress.DrainsExactly | ifsdriver/stubfsd.c:135-171 | In a state that satisfies the invariant, every run after the post drains if and only if no client is between its second look at pidDaemon and arming semRqDone |
| ExchangeProgress.WindowPreventsDrain | ifsdriver/stubfsd.c:249-266 | A client in that window leads to a run that ends with it and the stopper blocked for ever |
| ExchangeProgress.StopCanStrand | ifsdriver/stubfsd.c:242-276 | A clean run from the loaded driver to a stop from which some run leaves a thread blocked for ever |
| Driver.Exchanger.StepClient | ifsdriver/stubfsd.c:122-171 | The statement a client's thread is at, on the variables in place, is the step of the relation |
| Driver.Exchanger.StepDaemon | ifsdriver/stubfsd.c:397-418 | The same for the daemon: start, GET_REQUEST, handling, DONE_REQUEST, stop |
| Driver.Exchanger.Run | ifsdaemon/isofsdmn.c:548-578 | Under any schedule, what the threads do to the variables is a clean run of the relation, up to the first step that is blocked or would end a start with semSerialize set; the invariant holds there |
| Wildcard.MatcherCorrect | ifsdaemon/find.c:41-74 | The matcher accepts exactly the names that can be cut into one fitting piece per pattern character, including the rule that a question mark accepts at the end of the name |
| Wildcard.TableCorrect | ifsdaemon/find.c:38-74 | A table of (m+1)(n+1) cells filled once gives the same answers |
| Wildcard.StarDotStar | ifsdaemon/find.c:41-74 | "*.*" matches every name |
| Wildcard.CaseNeverMatters | ifsdaemon/find.c:69-71 | The answer does not depend on the case of letters in pattern or name |
| Bytes.SameNameExact | ifsdaemon/find.c:69-71 | Two names differ in case exactly if they have the same length and differ in nothing but the case of letters |
| Names.HasNon83Name | ifsdaemon/utils.c:58-82 | The one-pass counter loop answers whether the name is no 8.3 name |
| Names.UpperKeeps83 | ifsdaemon/utils.c:58-82 | Upper-casing does not change the answer |
| Names.BadCharacters | ifsdaemon/utils.c:51-53 | The characters refused in an 8.3 name are those of the source's list |
| Names.Separators | ifsdaemon/utils.c:43-48 | Slash and backslash separate, and nothing else does |
| Names.VerifyString | ifsdaemon/utils.c:33-38 | True exactly for a buffer without terminator |
| Names.SplitPath | ifsdaemon/utils.c:112-137 | Prefix without trailing separators, separators, last part without separators |
| Names.SplitUnique | ifsdaemon/utils.c:102-137 | A path has only one such split |
| Names.SplitComponents | ifsdaemon/utils.c:102-137 | Splitting splits off the last component of the path |
| Names.SeparatorsDoNotMatter | corefs/isoaccess.c:280-305 | Separators repeated in front of a path, between its parts or at its end do not change the components |
| EaList.StoreEA | ifsdaemon/ea.c:117-150 | One empty-valued FEA is stored if it fits, and nothing otherwise |
| EaList.StoreListedEAs | ifsdaemon/ea.c:204-219 | The GEA loop ends for every list and writes what the specification says, only inside its room |
| EaList.StoreEAsInFEAList | ifsdaemon/ea.c:179-232 | The whole list, count first, with the same return code as the specification |
| EaList.StoreEasExact | ifsdaemon/ea.c:204-219 | For any bytes: no answer if they are no sequence of GEAs, else the FEAs of the names in order if they fit and an overflow if not |
| EaList.GeasExact | ifsdaemon/ea.c:204-219 | The lists taken for sequences of GEAs are the encodings of their names and no others |
| EaList.StoreEasInconsistent | ifsdaemon/ea.c:211-219 | A list that is inconsistent somewhere is reported so exactly if the room lasts until there |
| EaList.FeaListRc | ifsdaemon/ea.c:179-232 | The return code for every request, consistent or not, and every room |
| EaList.EaRoundTrip | ifsdaemon/ea.c:179-232 | For every list of names, the FEA list decodes to one empty attribute per name in order, its count is 4 plus 5 and the length of each name, and it overflows exactly when that does not fit |
| EaList.FeaListExact | ifsdaemon/ea.c:179-232 | A consistent request is answered exactly if the answer fits |
| EaList.ConsistencyIsStable | ifsdaemon/ea.c:204-219 | Whether a request is consistent does not depend on the room |
| FileRecord.StoreFileInfo | ifsdaemon/fileinfo.c:31-140 | Writes the specified record; the write pointer and the remaining room, two variables, keep their sum whatever is returned, with the length of the EA list read back from the buffer; nothing outside the room is written; the attributes of the entry are rewritten |
| FileRecord.EntryRoundTrip | ifsdaemon/fileinfo.c:49-139 | A reader that knows the level gets back position, dates, sizes, attributes, EAs and name, whatever follows |
| FileRecord.DateIsKept | ifsdaemon/utils.c:201-216 | Recording dates from 1980 to 2107 are reported as they are, to an even second |
| FileRecord.TwoSecsExact | ifsdaemon/utils.c:208-211 | The second is a signed character, halved towards zero and cut to five bits |
| FileRecord.StatusExact | ifsdaemon/fileinfo.c:60-91 | A record says three times the recording date, twice the size, zero for a directory, and read-only, with the directory bit exactly for directories |
| FileRecord.OutcomeExact | ifsdaemon/fileinfo.c:93-138 | Which return code, from the sizes of name, attributes and room alone |
| FileRecord.OtherErrors | ifsdaemon/fileinfo.c:95-131 | The errors for a name of more than 255 characters and for an inconsistent request |
| FileRecord.NoOtherError | ifsdaemon/fileinfo.c:95-138 | Once a record was stored in full, another entry with a proper name can fail only for lack of room |
| Find.WantedMeans | ifsdaemon/find.c:78-129 | What the bit tests come to for entries of an image |
| Find.EditsAreHarmless | ifsdaemon/find.c:180-190 | Upper-casing a name and rewriting the attributes change no answer of the filter and nothing that is shown |
| Find.ShownExact | ifsdaemon/find.c:181-182 | Without bit 0x40 a name is shown with every letter in upper case and otherwise as it is, with the bit as it is |
| Find.SearchData.AdvanceSearch | ifsdaemon/find.c:132-136 | Cursor and counter move together |
| Find.SearchData.StoreNextFileInfo | ifsdaemon/find.c:139-203 | Skips to the next wanted entry, stores its record, and moves behind it exactly if it was stored in full, for a list edited by earlier calls; pointer and room keep their sum |
| Find.SearchData.StoreDirContents | ifsdaemon/find.c:205-254 | Return code, count, bytes and cursor of one call, for a list edited by earlier calls |
| FindSession.BatchDelivers | ifsdaemon/find.c:205-254 | One call delivers the wanted entries it passes, in order and once: the buffer decodes to as many records as the count says, for these entries, whatever it holds behind them |
| FindSession.BatchOutcome | ifsdaemon/find.c:231-251 | Once a record is in the buffer the call succeeds, so the break loses nothing; a proper request meets no error but an overflow, unfitting EAs and the end |
| FindSession.BatchStops | ifsdaemon/find.c:231-245 | A call stops early only at the end or at an entry that does not fit; an overflow leaves the first wanted entry under the cursor |
| FindSession.ZeroIsRefused | ifsdaemon/find.c:219-222 | A call for no entry, and no other, is refused as an invalid parameter, and moves nothing |
| FindSession.SearchDelivers | ifsdaemon/find.c:132-254 | For every list, pattern, mask and sequence of levels, sizes and counts: the program receives all there is to say of the wanted entries up to the cursor, their names in upper case exactly for searches for 8.3 names, with the positions and attributes asked for, in order and once, and of all of them after ERROR_NO_MORE_FILES |
| FindSession.SearchEnds | ifsdaemon/find.c:205-254 | With room for one record per call, everything is delivered after as many calls as there are wanted entries, and one more call reports the end |
| FindSession.PositionsIncrease | ifsdaemon/fileinfo.c:49-57 | Whatever value iNext began with, of two received positions the later is greater exactly if the 32-bit counter did not wrap between them |
| FindSession.PositionsCanWrap | ifsdaemon/fileinfo.c:49-57 | A search in which the second position received is smaller than the first |
| FindSession.WholeDirectory | ifsdaemon/find.c:257-407 | From a directory laid out by the standard, over any number of sectors, to the program: names, sizes and kinds of all its entries, in order, however the search is portioned |
| Program.ReadOn | ifsdaemon/find.c:411-451 | What a program reads from its buffer after each call of a loop over FindNext is what the theorems about whole searches are about |
| Program.ListDirectory | ifsdaemon/find.c:257-537 | A program that finds first, finds next for any requests and closes has read all there is to say of the wanted entries, in order and once, in the directory and for the pattern that its name splits into, up to the cursor and to the end after ERROR_NO_MORE_FILES; no search is left open |
| Program.ListsLaidOut | ifsdaemon/find.c:257-407 | For a path to such a directory, a program that searches for everything is delivered the names, sizes and kinds of all its entries, in order |
| IsoDir.GetDirEntries | corefs/isoaccess.c:81-233 | The sector and record loops return the specified entries, of as many sectors as the length takes, and end |
| IsoDir.ScanSector | corefs/isoaccess.c:109-231 | The inner loop over one sector |
| IsoDir.BuildName | corefs/isoaccess.c:126-192 | Directory links, 8-bit names, and 16-bit names through a table with missing pages |
| IsoDir.EntriesParsed | corefs/isoaccess.c:204-230 | Every parsed entry has a name of at most 255 characters and the attributes of its kind |
| IsoDir.RecordRoundTrip | corefs/isoaccess.c:109-231 | Parsing an encoded directory record gives back name, extent, size and kind |
| IsoDir.ReadsLayout | corefs/isoaccess.c:81-233 | For every directory laid out by the standard, of a length in its last sector, the records that begin in reach are returned, in order |
| IsoDir.ReadsExactly | corefs/isoaccess.c:81-233 | All records of a directory of any length are returned if and only if every one begins at most 1977 bytes into its sector |
| IsoDir.EntryAt | corefs/isoaccess.c:109-231 | Which entry is which: the i-th record of the k-th sector comes behind those of the sectors before and those before it in its own, with its name, extent, size and kind |
| IsoDir.InReachExactly | corefs/isoaccess.c:109-231 | In reach means that the records in front of each take at most 1977 bytes |
| IsoDir.LateRecord | corefs/isoaccess.c:81-233 | A sector laid out by the standard the last record of which is not read |
| IsoDir.NameInFull | corefs/isoaccess.c:138-192 | A name is read in full exactly when no character translates to zero |
| IsoDir.WideRoundTrip | corefs/isoaccess.c:138-192 | Without a table, Joliet names of 8-bit characters are read back unchanged |
| IsoDir.TableRoundTrip | corefs/isoaccess.c:138-192 | Names are read back through a table: page of the high byte, which comes first, entry of the low byte |
| IsoDir.MissingPageEndsName | corefs/isoaccess.c:138-192 | A character on a missing page ends the name |
| IsoDir.NamesOfEntries | corefs/isoaccess.c:126-137 | The identifiers 0 and 1 are "." and "..", any other is an 8-bit name as it is |
| IsoDir.DirectoryFlag | corefs/isoaccess.c:118-125 | An entry is a directory exactly if the flag of value 2 is set |
| IsoPath.QueryIsoEntryFromPath | corefs/isoaccess.c:263-353 | The resolver is the lookup of one component after the other |
| IsoPath.FindExact | corefs/isoaccess.c:325-332 | Every entry is looked at: nothing is found exactly if no entry has the name, and otherwise the first that has it |
| IsoPath.QueryDirExtentFromPath | corefs/isoaccess.c:355-439 | The other resolver, which keeps an extent instead of an entry |
| IsoPath.SeparatorsIgnored | corefs/isoaccess.c:280-305 | Nor do they change the answer of either resolver |
| IsoPath.ResolveSplit | ifsdaemon/find.c:309-348 | Resolving a path is looking up its last part in the directory its prefix resolves to |
| IsoPath.ResolversAgree | corefs/isoaccess.c:355-439 | On a path on which no directory reached through directories has extent 0, the second resolver returns an extent and size exactly if every part of the path names a directory, and then the first returns a directory with them |
| IsoPath.ZeroDisagrees | corefs/isoaccess.c:385-439 | On a path to a directory at extent 0 through directories elsewhere, they disagree |
| IsoPath.ResolversAgreeExactly | corefs/isoaccess.c:355-439 | They agree on every path if and only if no directory that a path reaches through directories has extent 0 |
| IsoPath.ZeroExtentMisleads | corefs/isoaccess.c:385-400 | An image with a directory at extent 0 and a path on it that the first resolver refuses and the second resolves |
| IsoPath.WalkIsTreeExactly | corefs/isoaccess.c:310-346 | On every path the first resolver finds what the tree of directories has if and only if no regular file reached through directories has data in which a name is found |
| IsoPath.FileMisleads | corefs/isoaccess.c:310-346 | An image on which a path leads through a regular file to an entry in its data |
| Descriptors.ScanDescriptors | ifsdaemon/attach.c:245-265 | In any number of rounds, ends exactly if a terminator or Joliet descriptor is among the descriptors looked at, and then with the first of these |
| Descriptors.ScanDecides | ifsdaemon/attach.c:245-265 | Whether the scan ever ends is decided by the descriptors within the image |
| Descriptors.ShortImageNeverStops | ifsdaemon/attach.c:245-265 | On an image of at most 16 sectors the scan never ends |
| Descriptors.RootRoundTrip | ifsdaemon/attach.c:303-307 | A root record encoded in the descriptor gives extent and size of the root |
| Descriptors.DescriptorAt | ifsdaemon/attach.c:235-264 | The descriptors are at sector 16 of the image and behind, after the sectors to be skipped |
| Descriptors.KindsOfDescriptors | ifsdaemon/attach.c:246-258 | Type 255 ends the scan, and so does type 2 with one of the three escape sequences |
| Descriptors.VolumeExact | ifsdaemon/attach.c:275-286 | A volume has its image and table, and level 1, 2 or 3 by its escape sequence |
| Descriptors.NamesOfAttached | ifsdaemon/attach.c:275-286 | The names of an attached volume are read as 16-bit names at each of the levels, with or without a table |
| FileIo.OpenFile.Read | ifsdaemon/fileio.c:26-93 | The sector loop fills the buffer with exactly the bytes of the image from the position on, leaves the rest of the buffer alone, and advances the position |
| FileIo.ReadInFile | ifsdaemon/fileio.c:42-46 | From a position in the file: the bytes of the file, as many as are asked for and there |
| FileIo.ReadStaysInFile | ifsdaemon/fileio.c:42-46 | Only bytes of the file are returned if and only if the position is in the file or at its end, or nothing is asked for, or the file is empty; and how many are returned from behind the end |
| FileIo.ReadsConcatenate | ifsdaemon/fileio.c:39-92 | Any sequence of reads concatenates to the part of the file from the first position on |
| FileIo.OpenFile.ChgFilePtr | ifsdaemon/fileio.c:110-147 | New position and return code of a seek |
| FileIo.MoveExact | ifsdaemon/fileio.c:120-146 | A seek does what is asked for, or reports a negative target, if and only if the offset from the beginning is not negative or the other targets are below 2^31 |
| FileIo.SeekKinds | ifsdaemon/fileio.c:120-146 | What each kind of seek, by its number, does for every offset, beyond the limits included |
| Books.CountersCount | ifsdaemon/openclose.c:71-74 | Over every run of opens, closes, searches, attaches and detaches, closes after a forced detach and attaches at the same address included: the counters of an attached volume are the handles given out and not finally closed, less those left at its address when it was attached, so they are equal if and only if none was left |
| Books.DetachGate | ifsdaemon/attach.c:338-349 | A detach without force succeeds exactly if as much is open as was left when the volume was attached; if nothing was left, exactly if nothing is open |
| Books.NothingDangles | ifsdaemon/attach.c:338-349 | Without forced detaches no handle outlives its volume |
| Books.DetachDangles | ifsdaemon/attach.c:338-366 | If nothing was left when it was attached, a volume leaves the list with a handle out if and only if the detach is forced and there is one |
| Books.DanglesExactly | ifsdaemon/attach.c:338-366 | Over a whole run, no handle ever outlives its volume if and only if no detach is forced while one is out |
| Books.FreedExactly | ifsdaemon/find.c:523-537 | Along a run, a close can ever touch freed volume data if and only if some detach was forced while a handle was out |
| Books.ForcedDetachDangles | ifsdaemon/attach.c:338-366 | A forced detach with a file open, after which the close touches freed data or takes the counter of another volume to -1 |
| Books.ListNewestFirst | ifsdaemon/attach.c:313-316 | The list holds the attached volumes in the order of attachment, newest first |
| Books.WithoutAt | ifsdaemon/attach.c:351-356 | Detaching removes exactly one volume and keeps the order of the rest |
| Volumes.ServerData.Link | ifsdaemon/attach.c:313-316 | Pointer surgery at the head keeps a well-formed doubly linked list |
| Volumes.ServerData.Unlink | ifsdaemon/attach.c:351-356 | Pointer surgery anywhere keeps a well-formed doubly linked list of the others |
| Volumes.ServerData.Detach | ifsdaemon/attach.c:322-369 | Refused while counters are not zero unless forced; otherwise the volume, and only it, leaves the list |
| Calls.AttachVolume | ifsdaemon/attach.c:146-319 | Which error for which parameters and image, or no answer as long as no descriptor has stopped the scan; on success exactly one new volume, first in the list, with the image, the table, a level for 16-bit names and the root of the first Joliet descriptor |
| Calls.BasePaths | ifsdaemon/attach.c:169-176 | Which paths are taken for absolute |
| Calls.RootResolves | corefs/isoaccess.c:286-302 | The root has the extent, size and date of the record in the descriptor |
| Calls.OpenCreate | ifsdaemon/openclose.c:89-203 | Return code; a new handle with extent and size of the resolved entry and one more open file, or nothing changed |
| Calls.OpenExact | ifsdaemon/openclose.c:89-203 | An open succeeds exactly if the resolver finds an entry that is no directory and it is opened for reading or execution |
| Calls.OpenErrors | ifsdaemon/openclose.c:101-203 | Which error for which name, entry, action and mode, each code by its condition |
| Calls.OpenInTree | ifsdaemon/openclose.c:119-203 | On a disc none of whose files has data in which a name is found, an open succeeds exactly for the files in its tree of directories |
| Calls.OpensThroughFile | ifsdaemon/openclose.c:119-203 | An image on which an open of a path through a regular file succeeds |
| Calls.Close | ifsdaemon/openclose.c:209-230 | Only the final close counts, on attached and detached volumes |
| Calls.FindFirst | ifsdaemon/find.c:257-407 | Errors in their order; otherwise the reply of the first batch over the directory the prefix resolves to, and one more search exactly if it succeeds or EAs do not fit |
| Calls.EarlyErrors | ifsdaemon/find.c:272-366 | Which requests are refused before the buffer is filled, each code by its condition, and that no other is, at levels 1, 2 and 3 |
| Calls.ListingIsLookedUp | ifsdaemon/find.c:318-348 | What is listed for the directory part of a path is where its last part is looked up; if nothing is, the tree has nothing at the path |
| Calls.ListingLaidOut | ifsdaemon/find.c:330-348 | For a path to a directory laid out by the standard, what was laid out is listed |
| Calls.FindNext | ifsdaemon/find.c:411-451 | The next batch from the cursor, and nothing written outside its room |
| Calls.FindFromName | ifsdaemon/find.c:455-520 | As FindNext; the name and position given are not used |
| Calls.FindClose | ifsdaemon/find.c:523-537 | One search less, on attached and detached volumes |

## Left out

- The kernel's helpers: process identity, semaphores and buffers have only their meaning; waiting for ever with errors from the helpers themselves, locking of memory and selectors are not part of this model.
- FSCTL_STUBFSD_RESET, and a daemon started before a stop has returned.
- The process checks of GET_REQUEST and DONE_REQUEST and the time limit on hmtxGlobal: with one daemon thread and no reset they always pass.
- Entry points with returns outside the common skeleton (`ifsdriver/stubfsd.c:566-573`, 1549, 1611, 1670), releases inside the copy helpers (1124, 1164), and the second handshake that undoes a find-first.
- The linked list of directory entries is a sequence; allocation always succeeds, and nothing is said about freeing.
- The image is a sequence of bytes, and bytes outside of it or outside of a sector buffer read as zero; the source leaves old contents in its buffers there. Extents large enough to overflow a shift by 11 are treated as plain integers.
- Calls.AttachVolume: the scan is cut off after a number of rounds that the caller gives, where the source goes on for ever.
- Calls.Close, Calls.FindClose: after a forced detach the source decrements a counter in freed memory; in the model that memory lives on or, in the theorems about runs, comes to hold another volume; other uses of it are not modelled.
- IsoPath.QueryDirExtentFromPath: gives size 0 for a path that is not resolved, where the source leaves the caller's variable as it was.
- FileRecord.StoreFileInfo: the status structure is taken to be the packed one of 22 bytes of the operating system's header, which is not part of this model; the level of hidden files is not stored because parsed entries are never hidden.
- Letter case is that of the C locale; char is signed in dates, as the compilers of this source have it.
- The contents of the code page tables, the registry of tables, the choice of the system code page: a table is any 256 optional pages.
- Write operations that only answer ERROR_WRITE_PROTECT, mount and unmount tools, logging, options, the dump tool, times through localtime, path and file information calls other than the record writer.
- The sector offset of an image applies only to its descriptors, as in the source.
