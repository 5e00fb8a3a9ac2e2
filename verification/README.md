# ircd-ratbox: a verified model of its hardest parts

This project models, in Dafny, the parts of ircd-ratbox (and of the libltdl that it bundles) whose
correctness does not show in any single function, and proves what they promise:

- **G-line voting** (`modules/m_gline.c`, `modules/m_gungline.c`, the clearing steps of
  `modules/m_rehash.c`, the expiry in `src/s_newconf.c`). A network ban is placed, or lifted, when three
  opers on three servers agree. `GlineVotes` is the pure machine, `GlineModule` the object whose methods
  walk and rewrite the lists in place. What holds over all runs is in `GlineBacking` (three votes behind
  every ban placed or lifted), `GlineInvariants` and `GlineCompleteness`.
- **The module registry of libltdl** (`libltdl/ltdl.c`). `Registry` is opening and closing with the
  counting invariant, `RegistryRuns` all runs by clients that close only what they opened,
  `RegistryShutdown` the walk by levels of the shutdown, `ShutdownOrder` what becomes of dependencies in it,
  `RegistryResidents` what becomes of resident handles, `RegistryModule` the imperative form of it all.
- **Linked lists** (`libltdl/slist.c`): `SlistSpec` and `Slist`, the destructive stable merge sort on heap
  items, and reverse, concat and remove.
- **Argz vectors and search paths** (`libltdl/argz.c`, `libltdl/ltdl.c`): `Strings` (splitting and joining),
  `ArgzSpec`, `Argz`, `DirListing`, `SearchPath`, `CanonPath`, and `UserPath`, the calls that edit the path.
- **Ban flat files** (`bandb/bantool.c`): `BanFile` (the splitter that cuts a line in place) and
  `BanRoundTrip` (printer and parser).
- **WHO, MONITOR, K-line masks, oper challenge**: `Who`, `Monitor`, `Kline` and `Cidr`, `Challenge`.

Methods follow the loops and in-place updates of the source and are proved equal to a specification
function; the lemmas then prove properties of that function over every input, run or reachable state.
Records that the source keeps behind pointers in a list (pending votes, module handles) are sequences or
maps of values, indexed by position or identity; list items, clients and buffers that the source relinks,
marks or overwrites are heap objects and arrays.

Clocks, the contents of directories and module files, the verdict of `match`, and `parse_netmask` are
parameters. C strings are sequences of characters without NUL.

Where the code and its comments or the obvious expectation differ, the model follows the code:

- A pending G-line stores its mask in fields of 10 and 63 characters, and compares it untruncated. An
  overlong mask therefore never matches its own entry. `GlineInvariants.RunSoundExactly` says exactly which
  runs keep one entry per mask and none for an active mask; `GlineInvariants.OverlongMaskDuplicates` and
  `GlineCompleteness.OverlongMaskPendsActive` are runs that do not. Such a vote counts as the first one for a
  mask that the voter did not name (`GlineCompleteness.TruncatedVoteCounts`).
- An empty second user name means "nobody has seconded", so a vote for the mask by a nameless client restarts
  the clock of its record without counting. The second vote comes less than 600 s after the first or after such
  a restart; with n restarts between them the first two votes are at most 599 (n + 1) s apart
  (`GlineBacking.WindowBound`), and that far they can be, for every n (`GlineCompleteness.WindowWithoutLimit`).
- `lt_dlexit` closes by reference count, so a module can outlast a dependency and close it again when it goes;
  in C that reads freed memory. For a module and its one dependency this happens if and only if the module
  counts more references (`ShutdownOrder.PairInOrderExactly`), and two opens of the module lead there
  (`ShutdownOrder.DependencyClosedTwice`). It never happens when only handles without dependencies are resident
  or opened more than once (`ShutdownOrder.ShutdownInOrder`).
- Appending a directory to a search path without any text (such as ":") leaves an empty path
  (`SearchPath.AppendedPath`), because `argz_stringify` never looks at the first byte.
- `lt_dlpath_insertdir` inserts the directory as given and not its canonical form, against its own comment that
  entries are canonical. A position is applied to a vector that may be shorter than the path, and is outside it
  if and only if it exceeds the length of the path and one, less the separators that `argz_create_sep` drops
  (`UserPath.UndefinedExactly`); ":::a" is such a path (`UserPath.OffsetOutside`). Requests without such
  separators never lead there (`UserPath.TidyRuns`).
- `argz_create_sep` followed by `argz_stringify` also restores a string that ends in one delimiter;
  `ArgzSpec.RoundTripExactly` gives the exact condition.
- `canonicalize_path` leaves a separator at the end, or doubled separators, when an element of slashes only
  follows one with text (`CanonPath.SecondPassShortens`), and is idempotent exactly on the other paths
  (`CanonPath.IdempotentExactly`).
- `getfield` takes a comma that stands first in a field, or right behind a quote in it, for the end of the
  field; every other field comes back whole (`BanFile.GetQuotedExactly`).
- The challenge loop drops the last character of a challenge whose length leaves remainder 1 by 406
  (`Challenge.WholeExactly`); base64 text never has such a length.
- The comments of `slist_sort` call it a quicksort; it is a merge sort.

`dafny verify dfyconfig.toml` checks everything.

## Model

| member | source | states |
|---|---|---|
| Casemap.IrcCmp | include/match.h:137-152 | the comparison loop returns 0 exactly for strings of one length whose characters are equal, or 32 apart with the lower one from A to the caret, at every place |
| GlineModule.Glines.FindIsGlined | modules/m_gline.c:538-552 | finds a ban exactly when one with the same user and host, up to case, is active |
| GlineModule.Glines.ExpirePendingGlines | modules/m_gline.c:815-836 | unlinking while walking leaves exactly the pending entries that are younger than 600 s and not active |
| GlineModule.Glines.Locate | modules/m_gline.c:679-684 | the walk stops at the first entry for the mask |
| GlineModule.Glines.RepeatVote | modules/m_gline.c:686-715 | true exactly when the oper or the server already stands behind the entry |
| GlineModule.Glines.MajorityGline | modules/m_gline.c:667-759 | a GLINE vote takes the specified step, and reports whether it placed a ban |
| GlineModule.Glines.RemoveTempGline | modules/m_gline.c:767-803 | removes the first ban for the same user and the same host name or network, and nothing else |
| GlineLists.RemovalExactly | modules/m_gline.c:767-803 | a removal takes out the first ban for the same user, up to case, and the same host name, or a network of the same family and length that holds the same addresses; nothing when there is none |
| GlineModule.Glines.ExpirePendingGunglines | modules/m_gungline.c:461-482 | leaves exactly the live removal votes, without the one that was named |
| GlineModule.Glines.CarryUngline | modules/m_gungline.c:323-327 | a carried removal lifts the ban and drops its entry |
| GlineModule.Glines.MajorityUngline | modules/m_gungline.c:274-362 | a GUNGLINE vote takes the specified step and reports whether it carried |
| GlineModule.Glines.ExpireGlinesByHold | src/s_newconf.c:230-246 | leaves exactly the bans whose time is not up |
| GlineModule.Glines.Perform | modules/m_gline.c:667-836 | every handler and timer of the object takes exactly one step of the machine, so the theorems on runs speak about it |
| GlineBacking.RecordsHold | modules/m_gline.c:673-759 | after every run each pending record, on both lists, holds votes that were cast in that run, in order, by different opers on different servers, with the clock set by its first vote or by a restart |
| GlineBacking.ActiveGlinesAreBacked | modules/m_gline.c:667-759 | after every run each active ban was placed by three votes, pairwise different in oper and in server, the second and third for its mask and the first for one that is stored as it, the second in time for the record and the third less than 600 s after the second, with the reason of the first |
| GlineBacking.OrdinaryBacking | modules/m_gline.c:667-759 | when the voted masks fit and the voters have user names, all three votes are for the very mask and each comes less than 600 s after the one before |
| GlineBacking.WindowBound | modules/m_gline.c:699-734 | with n nameless votes for the mask between them the first two votes are at most 599 (n + 1) s apart; without any, less than 600 s |
| GlineBacking.NewGlineIsBacked | modules/m_gline.c:699-723 | only a third qualifying vote adds to the active list |
| GlineBacking.RemovalsAreJustified | modules/m_gungline.c:274-362 | in every run a ban leaves the active list only by UNGLINE or by a GUNGLINE backed by three votes, for a mask that lifts it, by a clear, or when its time is up |
| GlineBacking.UnglineIsBacked | modules/m_gungline.c:305-327 | a GUNGLINE vote that removes a ban has two recorded votes before it |
| GlineInvariants.CompletedUnglineDropped | modules/m_gungline.c:323-327 | a carried GUNGLINE leaves no pending entry for its mask if and only if exactly one live entry for it stood before, as it does whenever there is one entry per mask |
| GlineInvariants.ReachableBasic | modules/m_gline.c:673-758 | after every run, whatever masks are voted on, no two bans have the same mask and every seconded entry has different opers on different servers |
| GlineInvariants.RunSoundExactly | modules/m_gline.c:673-758 | a run keeps one pending entry per mask on both lists and none for an active mask, throughout, if and only if each of its votes is for a mask that fits, or opens no entry, or whose stored form is neither active nor pending |
| GlineInvariants.StepSoundExactly | modules/m_gline.c:748-749 | one step keeps these invariants if and only if it is such a vote or no vote |
| GlineInvariants.ReachableSound | modules/m_gline.c:673-758 | in particular every state of a run of votes for masks that fit has these invariants |
| GlineInvariants.OnePerMaskExactly | modules/m_gline.c:748-749 | a vote leaves one entry per mask on its list, on either side, if and only if its mask fits, or opens no entry, or has no live entry under its stored form |
| GlineInvariants.OverlongMaskDuplicates | modules/m_gline.c:748-749 | two votes for one overlong mask leave two entries |
| GlineCompleteness.OverlongMaskPendsActive | modules/m_gline.c:748-749 | after three votes that place a ban, a vote for an overlong mask that is stored as the banned one opens an entry for it |
| GlineCompleteness.ThreeVotesAlwaysPlace | modules/m_gline.c:667-759 | from any state in which a mask is neither active nor pending, three qualifying votes place the ban at the third, with the first reason, whatever other votes, rejected repeats, removals and expiry runs fall between |
| GlineCompleteness.ThreeVotesAlwaysLift | modules/m_gungline.c:274-362 | three qualifying GUNGLINE votes carry at the third, whatever bystanders fall between: the first ban that the mask lifts goes, and the pending entry with it |
| GlineCompleteness.ThreeVotesDecide | modules/m_gline.c:667-759 | both also when nameless votes for the mask keep the record of the first vote alive |
| GlineCompleteness.BystanderKeepsWaiting | modules/m_gline.c:815-836 | no other event disturbs the entry of a mask before it expires |
| GlineCompleteness.VotesMeetExactly | modules/m_gline.c:679-684 | two votes in time by different voters meet in one record if and only if their masks agree in user and in host up to case |
| GlineCompleteness.TimersExactly | src/s_newconf.c:230-246 | each timer leaves exactly the bans and the entries whose time is not up, and of the pending bans those whose mask differs from every active one |
| GlineCompleteness.WindowWithoutLimit | modules/m_gline.c:699 | for every n there is a run with n nameless votes in which the first two votes are 599 (n + 1) s apart and the ban is placed |
| GlineCompleteness.TruncatedVoteCounts | modules/m_gline.c:748-749 | a vote for an overlong mask and two for its stored form place a ban on the latter |
| Registry.CloseCounted | libltdl/ltdl.c:1941-2003 | giving up an owed reference keeps the count of every handle exact, however far the close cascades, and never meets a handle that is gone |
| Registry.CloseAllCounted | libltdl/ltdl.c:974-994 | closing the dependencies of a handle gives up exactly the references it held |
| Registry.LastReference | libltdl/ltdl.c:1969-1984 | when the last reference goes, no registered handle depends on the handle any more |
| RegistryRuns.OpenCounted | libltdl/ltdl.c:1151-1513 | an open, with all the dependencies it pulls in, adds one owed reference, or none if it fails |
| RegistryRuns.OpenAllCounted | libltdl/ltdl.c:819-972 | loading dependencies adds one owed reference for each that opened |
| Registry.ResolveExactly | libltdl/ltdl.c:534-575 | the candidate taken is the first whose file is registered or loads; none is taken exactly when there is none |
| Registry.OpenAllInTurn | libltdl/ltdl.c:942-952 | every dependency is opened, in order, each on what the ones before it left, and the handles of those that opened are kept |
| Registry.CloseEffect | libltdl/ltdl.c:1948-2000 | a close of a handle that is gone only counts an error; one that leaves a reference, or meets a resident handle, takes one reference and changes nothing else |
| Registry.LastCloseUnlists | libltdl/ltdl.c:1969-1984 | the last close unregisters a handle that is not resident |
| RegistryRuns.OpenResult | libltdl/ltdl.c:368-482 | an open fails exactly when no candidate is registered or loads; otherwise it returns a handle registered under the first that is or does: the one registered before, or a new one at the head with its dependencies, its resident flag and one reference |
| RegistryResidents.MadeResidentStays | libltdl/ltdl.c:2249-2265 | in every run a handle that is made resident is registered ever after |
| RegistryRuns.RunCounted | libltdl/ltdl.c:818-994 | the counting invariant holds after every run of opens, closes and changes of residency |
| RegistryRuns.RegistryIsExact | libltdl/ltdl.c:1941-2003 | after every run a non-resident handle counts client opens plus dependency slots, is registered exactly while there are any, every dependency of a registered handle is registered and listed behind it, file names are unique, and no close reached a handle that was gone |
| RegistryShutdown.CloseWears | libltdl/ltdl.c:1941-2003 | in a shutdown every close keeps counts positive, resident handles in place, and never adds references, and lowers their sum when the handle can be unloaded |
| RegistryShutdown.PassProgress | libltdl/ltdl.c:290-322 | a pass over a list with a handle that can be unloaded lowers the sum of counts, or the sum stays and is above the level, so the passes come to an end |
| RegistryShutdown.ShutdownLeavesResidents | libltdl/ltdl.c:279-326 | for any positive counts the passes end with exactly the resident handles that are listed behind the first one that is not |
| ShutdownOrder.ShutdownAfterRun | libltdl/ltdl.c:279-326 | this holds after every run, and no close of the shutdown reaches a handle that is gone when only handles without dependencies are resident or were opened more than once |
| ShutdownOrder.ShutdownInOrder | libltdl/ltdl.c:292-321 | the latter from any exactly counted registry, which is left exactly counted for what is then owed |
| ShutdownOrder.PairInOrderExactly | libltdl/ltdl.c:290-322 | for a module listed before its one dependency, with any positive counts, no close of the shutdown reaches a handle that is gone if and only if the module counts at most as much as the dependency |
| ShutdownOrder.DependencyClosedTwice | libltdl/ltdl.c:290-322 | after two opens of a module with one dependency the shutdown closes the dependency once more than it can |
| RegistryModule.Ltdl.Dlclose | libltdl/ltdl.c:1941-2003 | terminates because it unlinks before it descends, leaves the specified registry, and counts an error for every handle that is gone, for a resident one, and what the loader returns for each module unloaded |
| RegistryModule.Ltdl.UnloadDeplibs | libltdl/ltdl.c:974-994 | closes each dependency that is not resident, and adds up their errors |
| RegistryModule.Ltdl.Search | libltdl/ltdl.c:1948-1953 | finds a handle exactly when it is registered |
| RegistryModule.Ltdl.FindRegistered | libltdl/ltdl.c:384-393 | finds the first registered handle of a file |
| RegistryModule.Ltdl.RegisterHandle | libltdl/ltdl.c:1484-1494 | a handle without references becomes the head of the list with one |
| RegistryModule.Ltdl.TryAll | libltdl/ltdl.c:534-575 | stops at the first file name that is registered or loads, or tries them all in vain |
| RegistryModule.Ltdl.FindModule | libltdl/ltdl.c:1403-1430 | registers or shares the module, or gives its dependencies back |
| RegistryModule.Ltdl.TryDlopen | libltdl/ltdl.c:1151-1513 | an open leaves the specified registry and returns the specified handle |
| RegistryModule.Ltdl.LoadDeplibs | libltdl/ltdl.c:942-952 | keeps the dependencies that opened, in order |
| RegistryModule.Ltdl.CloseAndContinue | libltdl/ltdl.c:303-318 | after a close the walk stands at the next handle, or at the head when that vanished |
| RegistryModule.Ltdl.Pass | libltdl/ltdl.c:292-321 | one pass terminates, leaves the specified registry, and reports whether it met a handle that can be unloaded |
| RegistryModule.Ltdl.Dlexit | libltdl/ltdl.c:264-326 | for any positive counts the level loop terminates and leaves the specified registry, at the last call only |
| SlistSpec.SortPermutes | libltdl/slist.c:306-336 | sorting keeps the multiset of items |
| SlistSpec.SortSorts | libltdl/slist.c:306-336 | for a total preorder the result is sorted |
| SlistSpec.SortStable | libltdl/slist.c:272-298 | for a total preorder items that tie keep their order |
| Slist.SortMerge | libltdl/slist.c:272-298 | relinks two separate sorted runs into their merge |
| Slist.Halve | libltdl/slist.c:322-330 | the two-speed walk cuts any list of two or more items into two non-empty shorter lists |
| Slist.SortList | libltdl/slist.c:306-336 | relinks the items in place into the specified order, and terminates |
| Slist.SortedList | libltdl/slist.c:300-336 | the returned list holds exactly the original items, sorted, with ties in their old order |
| Slist.Reverse | libltdl/slist.c:222-237 | the same items in reverse |
| Slist.Concat | libltdl/slist.c:141-158 | the items of the first list, then those of the second |
| Slist.RemoveMatch | libltdl/slist.c:77-111 | unlinks the first item that matches and no other, and returns what the callback made of it |
| Strings.SplitJoin | libltdl/argz.c:79-128 | splitting loses nothing: the pieces hold no delimiter and join back to the string |
| ArgzSpec.CreatedIsEntries | libltdl/argz.c:79-128 | the buffer ends up with exactly the non-empty pieces, and one empty entry when nothing follows the last delimiter |
| Argz.CreateSep | libltdl/argz.c:79-128 | stays inside its allocation, returns the length used, and yields those entries |
| Argz.Append | libltdl/argz.c:48-76 | the old bytes followed by the new ones |
| Argz.Insert | libltdl/argz.c:131-174 | the entry goes where the entry around the offset starts |
| Argz.Stringify | libltdl/argz.c:211-225 | every NUL inside the vector but one at its start becomes the separator, in place |
| Argz.NextEnumerates | libltdl/argz.c:177-208 | stepping through a vector visits its entries in order and then stops |
| Argz.StartOfEntry | libltdl/argz.c:145-146 | backing up from inside an entry, or from its end, finds its start |
| Argz.InsertedIsPack | libltdl/argz.c:148-171 | opening a gap at an entry and filling it is insertion into the list of entries |
| Argz.LtInsert | libltdl/ltdl.c:1713-1741 | inserts before the entry around the offset, or at the end, as a list |
| ArgzSpec.StringifiedIsJoin | libltdl/argz.c:211-225 | the C string of a stringified vector is its entries joined, or empty when the first entry is |
| ArgzSpec.RoundTripExactly | libltdl/argz.c:79-128 | splitting and stringifying restores a string with some text if and only if it has no leading and no doubled delimiter |
| DirListing.InsertKeepsSorted | libltdl/ltdl.c:1743-1762 | insertion keeps the vector strictly sorted and adds exactly the entry |
| DirListing.FindPlace | libltdl/ltdl.c:1752-1759 | the walk stops at the first entry that is not smaller |
| DirListing.InsertInOrder | libltdl/ltdl.c:1743-1762 | the bytes are those of the sorted list with the entry |
| DirListing.CutName | libltdl/ltdl.c:1782-1803 | both scans together cut the name at its stem |
| DirListing.StemExactly | libltdl/ltdl.c:1782-1803 | for every name the stem is what comes before its version suffix, and then before the last dot that is not its first character |
| DirListing.StemIsBase | libltdl/ltdl.c:1890-1895 | whatever extension and version a module file carries, it is listed by its base name, with or without dots |
| DirListing.ListFilesByDir | libltdl/ltdl.c:1827-1857 | the vector holds the listing of the names read |
| DirListing.ListingExactly | libltdl/ltdl.c:1827-1857 | the listing is sorted and holds exactly the directory, a slash and the stem for every name that does not start with a dot |
| DirListing.ListingOrderIndependent | libltdl/ltdl.c:1827-1857 | the vector is byte for byte independent of the order in which the directory is read |
| SearchPath.InsertDir | libltdl/ltdl.c:2111-2178 | for every path and offset the new path is the old entries with the directory in its place, empty when they start with an empty entry, and nothing when the offset is outside the vector |
| SearchPath.AppendedPath | libltdl/ltdl.c:2111-2178 | with no position the directory is appended to the entries; a path without text becomes empty |
| SearchPath.InsertedSplit | libltdl/ltdl.c:2111-2178 | on a path without leading, trailing or doubled separators this is list insertion on the split path: at the end, or before the entry that contains the offset or ends at it |
| SearchPath.InVectorExactly | libltdl/argz.c:79-128 | an offset is inside the vector if and only if it is at most the length of the path and one, less the separators that stand first or behind another |
| SearchPath.OutsideExactly | libltdl/ltdl.c:2195-2206 | some offset that the caller accepts is outside if and only if three separators are dropped |
| UserPath.UserSearchPath.AddSearchDir | libltdl/ltdl.c:2180-2192 | the path becomes the specified one, and stays when there is an error |
| UserPath.UserSearchPath.InsertSearchDir | libltdl/ltdl.c:2194-2219 | a position outside the path is rejected and leaves it alone; otherwise the path becomes the specified one |
| UserPath.UserSearchPath.SetSearchPath | libltdl/ltdl.c:2221-2237 | the path becomes the canonical form of the given one, or none |
| UserPath.AddExactly | libltdl/ltdl.c:2164-2171 | adding to any path joins its entries and the directory, or leaves nothing when the path has no text |
| UserPath.AddSplits | libltdl/ltdl.c:2164-2171 | on a path without leading, trailing or doubled separators the directory becomes the last entry |
| UserPath.InsertSplits | libltdl/ltdl.c:2154-2171 | there an accepted position puts it before the entry that contains the position or ends there |
| UserPath.AddEdges | libltdl/ltdl.c:2128-2140 | the first directory becomes the path, an empty one changes nothing, and one without text fails the assertion |
| UserPath.RejectedExactly | libltdl/ltdl.c:2199-2206 | a position is rejected exactly when it does not lie in the path |
| UserPath.SetSplits | libltdl/ltdl.c:2221-2237 | a path whose non-empty elements all have text becomes these, each with slash runs collapsed and trailing slashes removed |
| UserPath.UndefinedExactly | libltdl/ltdl.c:2149-2160 | an insertion steps outside its vector if and only if its offset is accepted and exceeds that bound |
| UserPath.OffsetOutside | libltdl/ltdl.c:2180-2219 | adding ":::a" and then inserting before its last character does |
| UserPath.TidyRuns | libltdl/ltdl.c:2149-2153 | requests whose directories have no leading, trailing or doubled separators, and whose paths have some text and no element of slashes only behind it, keep the path without such separators, and none of them ever steps outside |
| CanonPath.CanonicalizePath | libltdl/ltdl.c:579-638 | one pass inside the allocation that never lengthens the path |
| CanonPath.CanonIsElements | libltdl/ltdl.c:579-638 | for every path the result joins the non-empty elements, squashed, from the first with text |
| CanonPath.SquashIsRooted | libltdl/ltdl.c:610-628 | squashing an element collapses slash runs, drops trailing slashes and keeps a leading one |
| CanonPath.IdempotentExactly | libltdl/ltdl.c:579-638 | a second pass changes nothing if and only if no element of the path that consists of slashes only comes after one with text |
| CanonPath.SecondPassShortens | libltdl/ltdl.c:579-638 | "a:/" becomes "a:" and then "a" |
| CanonPath.TextEverywhere | libltdl/ltdl.c:579-638 | a path whose non-empty elements all have text becomes these elements, squashed and joined, and stays so |
| BanFile.Splitter.FindEnd | bandb/bantool.c:573-607 | the search loop finds the first comma after a quote |
| BanFile.Splitter.Field | bandb/bantool.c:555-611 | cuts the next field out of the line in place and moves the cursor |
| BanFile.GetQuotedExactly | bandb/bantool.c:555-611 | a quoted field comes back whole if and only if no comma of it stands first or right behind a quote |
| BanFile.FieldExactly | bandb/bantool.c:555-611 | there is a field if and only if the text starts with a quote and has a comma behind a quote; without one nothing follows either |
| BanFile.GetQuoted | bandb/bantool.c:555-611 | then the cursor stands behind the field, at the rest of the line |
| BanFile.LeadingCommaLost | bandb/bantool.c:597-602 | a field with a leading comma never does |
| BanRoundTrip.MangleReason | bandb/bantool.c:667-694 | quotes become apostrophes and colons blanks, all else stays |
| BanRoundTrip.StripQuotes | bandb/bantool.c:616-634 | the text without its quotes, inside the 14-byte buffer |
| BanRoundTrip.ChompLineNow | bandb/bantool.c:429-430 | cuts the line at the first carriage return or newline |
| BanRoundTrip.ImportLine | bandb/bantool.c:427-502 | one line of the importer gives the specified outcome |
| BanRoundTrip.ImportExactly | bandb/bantool.c:427-502 | what every line of quoted fields becomes: the row with its masks, oper and time, and the reason with the oper reason behind a bar, cut to 119 characters; skipped when a mask or the reason is empty or a K-line has an exclamation mark in its first mask |
| BanRoundTrip.OperMissing | bandb/bantool.c:482-483 | without a field behind the reason the program reads through a null oper field |
| BanRoundTrip.ImportSkips | bandb/bantool.c:432-439 | a line that does not start with a quote is skipped |
| BanRoundTrip.BuildRow | bandb/bantool.c:479-502 | reads the time behind the oper field and builds the row |
| BanRoundTrip.RoundTrip | bandb/bantool.c:329-373 | importing an exported K, D or RESV row gives the row back with only the reason mangled |
| BanRoundTrip.SecondRoundTrip | bandb/bantool.c:426-502 | a second round trip is the identity |
| Who.WhoCommonChannel | modules/m_who.c:217-252 | marks the invisible members it has seen and reports each wanted one once |
| Who.SecondPass | modules/m_who.c:293-318 | reports the visible clients and leaves no mark |
| Who.WhoGlobal | modules/m_who.c:266-322 | reports the first 500 of the expected clients, nobody twice, and leaves all marks clear |
| Who.ExpectedExact | modules/m_who.c:266-322 | the expected clients are exactly the matching visible ones and the matching invisible ones who share a channel with the requester, each once |
| Monitor.LineBuffer.Add | modules/m_monitor.c:227-243 | a name joins the line, or starts the next one after the full line is sent; nothing is lost or reordered |
| Monitor.ListMonitor | modules/m_monitor.c:208-249 | every line fits the buffer and carries a name, none could have taken the first name of the next, and the lines split at commas give the list back in order |
| Monitor.ShowMonitorStatus | modules/m_monitor.c:251-317 | the same, separately for the names on line and those off line |
| Monitor.OnlineExactly | modules/m_monitor.c:275-293 | the names on line are listed in order as name!user@host |
| Monitor.OfflineExactly | modules/m_monitor.c:295-310 | the others in order by their name |
| Kline.IsIpNumber | modules/m_kline.c:453-464 | accepts exactly strings of at most three characters that are all digits |
| Kline.Strtok | libratbox/src/ratbox_lib.c:256-283 | yields the next non-empty piece between dots and leaves the rest |
| Kline.MangleWildcardToCidr | modules/m_kline.c:466-518 | the tokens of the mask decide the result as specified |
| Kline.MangleExactly | modules/m_kline.c:466-518 | a mask is rewritten if and only if it starts with one to three numbers and goes on, within its first four fields, with stars only; then to these numbers, zeros and the length |
| Kline.NeverTruncated | modules/m_kline.c:469 | the 20-byte buffer never cuts a result |
| Cidr.RewrittenToBlock | modules/m_kline.c:484-515 | one to three octets followed by stars become the block of those octets |
| Cidr.MaskMatchesPrefix | modules/m_kline.c:466-518 | such a mask matches a dotted address exactly when the leading octets agree |
| Cidr.CidrIsEquivalent | modules/m_kline.c:466-518 | the block printed covers exactly the addresses whose dotted form the mask matches |
| Challenge.SplitChallenge | modules/m_oper.c:455-465 | the loop terminates and sends the specified lines |
| Challenge.LinesConcat | modules/m_oper.c:455-465 | the lines fit their width and concatenate to the challenge, or to all but its last character |
| Challenge.LinesFull | modules/m_oper.c:455-465 | every line but the last carries 406 characters |
| Challenge.WholeExactly | modules/m_oper.c:455-465 | the challenge arrives whole if and only if its length does not leave remainder 1 by 406 |
| Challenge.EvenIsWhole | modules/m_oper.c:54 | every challenge of even length arrives whole |

## Left out

- GlineModule.Glines.SetLocalGline: does not model the date appended to the stored reason or the oper reason split off at a bar, which nothing else reads.
- BanRoundTrip.StripQuotes: requires that the result fits the 14-byte buffer; the importer is Undefined where it does not.
- RegistryModule.Ltdl.Dlexit: keeps the records of unloaded handles readable, where C reads freed memory; its error count and the closing of loaders are not modelled.
- RegistryRuns.RegistryIsExact: speaks of clients that close only what they opened; allocation failures inside load_deplibs are not modelled.
- The checks that precede a vote (privileges, wildcards, CIDR lengths, parsing of user@host) and the messages, logs and notices of all handlers.
- Textual parsing of network masks and the generic wildcard matcher: parameters of the model.
- Reading .la files, searching directories and calling loaders: an attempt to open is given by what they turn up.
- lt_dlhandle_map, lt_dlsym, interface data and preloaded symbol lists.
- X-line rows of the ban files, whose escaping is not inverted by the importer, and all SQL.
- add_monitor, which packs its lines as show_monitor_status does while it changes the lists, and del_monitor.
- WHO for a single nickname or channel.
- Wildcard masks with more than four fields, or abbreviated without a star: later fields are ignored, so no equivalence holds.
- Generating the challenge and checking the response.
- The remaining handlers (statistics, help, MOTD, version, trace, spy modules, contrib): thin reporting.
