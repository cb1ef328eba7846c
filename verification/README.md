# Verified model of kasten-frs-web

kasten-frs-web is a small web front end for Kasten file recovery sessions (FRS).
It lists virtual machines, creates an FRS, waits until it is ready, and then lets
the user browse and download files over SFTP. This project models the parts of it
that carry state or have to get an algorithm right, and proves what they promise.

The parts, from the file server up:

- `GoPath`, `PathHelpers`: strings as Go handles them. `Split`, `Join`, the lexical
  `Clean`, `Dir`, `Base` and `PathJoin` of Go's `path` packages, and the handlers'
  own path helpers. Everything below is stated on real strings; the lemmas here carry
  it over from segment lists.
- `Sizes`: file sizes as text, with the float64 conversion and both roundings written
  out on integers.
- `SftpServer`, `Resolver`, `Listing`, `Sftp`: a file server that answers ReadDir,
  ReadLink, Stat and Open for literal path strings; resolving NTFS junctions with a
  learned and cached mount depth; the directory listing with its three probes; and
  the session object, whose loops are proved to make exactly the ReadDir calls the
  specification functions list, in the same order.
- `Archive`, `Cycles`, `Zip`: the recursive "download as ZIP" walker, against the
  preorder of the tree that junction-following unfolds. A listing can depend on the
  mount depth the session has cached, so the tree is unfolded under the depths the walk
  itself has cached when it lists each directory; `Cycles.SettledTree` says when that
  makes no difference. `Cycles` says exactly when the walk ends.
- `Frs`, `WatchMap`, `WatchProtocol`, `Handlers`: waiting for an FRS, the watch map,
  and the protocol around it as a transition system (create handlers, one watcher
  per created FRS, cancel, delete and sweep, a clock and a cluster that changes
  arbitrarily). Results hold for every interleaving. Its steps change the map by the
  same functions the `WatchTable` methods are proved against, and its poll, check and
  sleep steps use the same predicates as the `WaitForReady` loop. The two redirect
  decisions of the browse page sit on top.
- `Pool`: the session pool with idle expiry, as an object, as steps on a state, and
  against a specification over the history of calls.
- `Base64Url`, `Decimal`, `Cookie`: the signed cookie, printed and parsed.
- `VmListing`: restore points grouped through a hash map and sorted.

Some claims one would expect are false of the code. They appear as the exact
condition under which they hold, or as the failing case:

- A cached mount depth can change an answer: `Resolver.CacheChangesAnswer` says when,
  `Resolver.CacheIndependence` says which targets are safe.
- The archive walk need not end. On every server it ends exactly if no directory is
  entered again, with the same depth cached, while it is being walked
  (`Cycles.EndsIffNotReentered`). Where no listing depends on the cache this can be read
  off the server: exactly if the tree has no cycle with everything before it in preorder
  succeeding (`Cycles.EndsIffNoOpenCycle`, `Cycles.EndsIffNoCycle`). The volume of the
  repository's own self-loop test is one on which it never ends
  (`Cycles.TestVolumeNeverEnds`).
- `Store` on an occupied key loses the old session without closing it:
  `Pool.StoreOnOccupiedKeyLeaks`, `Pool.DisplacedExactly`.
- A cancelled FRS can come back into the watch map, exactly if the entry removed was
  Pending: `WatchProtocol.RemovedEntryReturnsIff`, `WatchProtocol.ReappearsIff`,
  `WatchProtocol.CancelledEntryComesBack`.
- A Failed FRS need not end as Failed. It does exactly if the watcher's last poll found
  it Failed with its transport published (`WatchProtocol.TerminalPhaseIff`);
  `WatchProtocol.FailedEndsAsTimeout` is a run in which the cluster says Failed all
  along and the entry ends as Timeout.
- Breadcrumb i links to the parent of segment i: `PathHelpers.BreadcrumbLinksToParent`.
- A size can be shown as 1024.0 of a unit: exactly from 1023.95 units on, counted as a float64
  (`Sizes.ThousandShown`; `Sizes.ThousandShownExample` is one byte less than a MiB).

Where comments and code disagree, the model follows the code:

- `ancestorWalkResolve` is said to make at most 4 ReadDir calls; depths 0 to 4 make 5
  (internal/sftpclient/client.go:263-271). `ListDir` is said to cost at most 3 probes
  per junction; it can take 12 (internal/sftpclient/client.go:137-142), and does on the
  servers of `Listing.TwelveProbes`.
- Archive names are said to be relative to the requested root, and a single file to be
  named by its base name (internal/handlers/handlers.go:638-639, 667-669); the code
  uses the cleaned full path in both cases.
- `buildPath` is said to include the i-th segment (internal/handlers/handlers.go:86-89);
  it stops before it.
- The poll endpoint is said to give direct visitors a full page instead of 204
  (internal/handlers/handlers.go:473-478); on Ready it sends the 204 to everybody, and
  on Failed or Timeout the fragment (`Handlers.PartialNeverNests`).
- The wait for a new FRS is said to default to 30 seconds
  (internal/handlers/handlers.go:160-163); the configuration and an unset timeout both mean
  120 seconds (internal/config/config.go:79, internal/handlers/wizard.go:317-320).
- Cancelling is said to clear the watch entry (internal/handlers/wizard.go:357-359);
  see above.

## Model

| member | source | states |
|---|---|---|
| GoPath.JoinSplit | internal/sftpclient/client.go:313 | joining what was split gives the string back |
| GoPath.SplitJoin | internal/sftpclient/client.go:322 | splitting what was joined gives the parts back, if no part holds the separator |
| GoPath.CleanSegsPlain | internal/sftpclient/client.go:313 | a cleaned absolute path has no empty, "." or ".." segment |
| GoPath.CleanSegsOfAbsPath | internal/sftpclient/client.go:313 | plain segments printed as a path are already clean and read back unchanged |
| GoPath.CleanSegsJoin | internal/sftpclient/client.go:162 | joining a plain name to any absolute path appends it to the cleaned segments |
| GoPath.DirOfAbsPath | internal/sftpclient/client.go:279 | Dir of a clean path drops the last segment; the root is its own Dir |
| GoPath.CleanRelative | internal/sftpclient/client.go:313 | a cleaned relative path is "." or some ".." and then plain segments, means the same as before from every directory, and is not changed by cleaning again |
| GoPath.PathJoinMeans | internal/handlers/handlers.go:745-746 | joining any two elements drops an empty one, and otherwise walks the second from where the first leads |
| GoPath.BaseOfAny | internal/sftpclient/client.go:220 | Base of any string is its last name whatever slashes follow, "/" for slashes only, "." for nothing |
| GoPath.DirOfAny | internal/sftpclient/client.go:279 | Dir of any absolute path is what all but its last part clean to |
| PathHelpers.SplitPathOfAbsPath | internal/handlers/handlers.go:71-77 | splitPath recovers the segments of a clean path |
| PathHelpers.SplitPathOfAny | internal/handlers/handlers.go:71-77 | on any path, slashes at both ends do not count; nothing else yields no segments |
| PathHelpers.BuildPathPrefix | internal/handlers/handlers.go:90-99 | buildPath(p, i) is the path of the first i segments, and splits back into them; below 0 it is "/", beyond the end the whole path |
| PathHelpers.BreadcrumbLinksToParent | internal/handlers/handlers.go:90-99 | the link of breadcrumb i is the parent of the directory it names, never that directory |
| PathHelpers.JoinPathRoundTrip | internal/handlers/handlers.go:102-123 | parentPath and baseName undo joinPath |
| PathHelpers.JoinPathOfAny | internal/handlers/handlers.go:115-123 | for any parent exactly one slash joins; an empty parent is the root |
| PathHelpers.ParentOfAny | internal/handlers/handlers.go:102-112 | on any path parentPath drops slashes at the end and then the last name; "/" if no name or nothing before it is left |
| PathHelpers.BaseNameOfAny | internal/handlers/handlers.go:858-864 | baseName is what follows the last slash, or the whole string |
| PathHelpers.ParentOfAbsPath | internal/handlers/handlers.go:102-112 | parentPath drops the last segment, baseName is that segment |
| PathHelpers.ParentReachesRoot | internal/handlers/handlers.go:102-112 | repeated parentPath is at "/" from exactly the number of segments on |
| PathHelpers.JoinsAgree | internal/handlers/handlers.go:115-123 | joinPath and filepath.Join agree exactly on parents that are clean, up to one trailing slash |
| Sizes.HumanSize | internal/handlers/handlers.go:52-67 | the text for every int64, without overflow: bytes below 1024, else KiB to EiB by the powers of 1024 between which the size lies, with the quotient of the float64 conversions as a canonical number and one digit |
| Sizes.Float64IsNearest | internal/handlers/handlers.go:66 | the conversion to float64 takes the nearest number of 53 significant bits, the even one of two |
| Sizes.RoundTie | internal/handlers/handlers.go:66 | a tie in the digit shown goes to the even neighbour |
| Sizes.TenthsClose | internal/handlers/handlers.go:66 | the number shown is off by at most half a tenth below 2^53 bytes, and above by at most half a unit in the last place of the count more |
| Sizes.TenthsMonotone | internal/handlers/handlers.go:66 | in one unit a larger file never shows a smaller number |
| Sizes.ThousandShown | internal/handlers/handlers.go:61-66 | the number shown lies between 1.0 and 1024.0, and is 1024.0 iff the size, as a float64, is at least 1023.95 units |
| Resolver.ResolveCorrect | internal/sftpclient/client.go:311-358 | for any cached depth: "" iff no suffix dropping 1 to 5 components is listable, else a listable suffix with the cache equal to the number dropped; at most 6 probes |
| Resolver.ResolveChoice | internal/sftpclient/client.go:319-356 | a working cached depth is used with a single probe, otherwise the least working depth is found |
| Resolver.DiscoverLeast | internal/sftpclient/client.go:340-357 | discovery finds the least working depth after asking once for each depth up to it |
| Resolver.CacheChangesAnswer | internal/sftpclient/client.go:319-337 | the warm answer differs from the cold one iff the cached depth works and a smaller one does too |
| Resolver.CacheChangesAnswerExample | internal/sftpclient/client.go:319-328 | a server and target on which it differs |
| Resolver.CacheIndependence | internal/sftpclient/client.go:311-358 | the answer is the same under every cache iff at most one depth works |
| Resolver.CacheRefinesStripping | internal/sftpclient/client.go:290-358 | on any list of targets under one unshadowed mount of k components every answer is the target without the mount, the depth is k from the first on, and n targets cost k + (n-1) probes |
| Sftp.Session.ResolveAbsoluteTarget | internal/sftpclient/client.go:311-358 | the loop's answer, new cached depth and sequence of ReadDir calls are those of Resolver.Resolve |
| Sftp.Session.AncestorWalkResolve | internal/sftpclient/client.go:268-288 | the loop's answer, depth and ReadDir calls are those of the first listable ancestor path |
| Sftp.Session.ListDir | internal/sftpclient/client.go:143-247 | the answer, cached depth and ReadDir calls are those of the listing specification |
| Sftp.Session.ListOne | internal/sftpclient/client.go:153-243 | one entry: OPENDIR, then READLINK with mount removal, then ancestors, else unchanged |
| Listing.AncestorWalkNearest | internal/sftpclient/client.go:268-288 | from a clean parent of n segments the nearest min(5, n+1) ancestors are asked in order; the nearest listable one is returned with its depth, "" iff there is none |
| Listing.AncestorPathsClean | internal/sftpclient/client.go:268-288 | from any absolute parent every path asked for is clean and accepted by validatePath |
| Listing.RowProbeBound | internal/sftpclient/client.go:153-243 | a row costs no ReadDir if it is no link, at most 12 if it is |
| Listing.TwelveProbes | internal/sftpclient/client.go:137-243 | with a depth cached, a link with a long target to a name not on its own path, alone on the server, costs exactly 12 ReadDir calls, and its listing 13 |
| Listing.LinkDestination | internal/sftpclient/client.go:162-243 | the priority of the three probes and the path each records |
| Listing.EntryCaches | internal/sftpclient/client.go:185-213 | only an absolute target of a link that does not open touches the cache, which then holds the number of components dropped, or 0 if none works |
| Listing.RowsUnderMount | internal/sftpclient/client.go:143-247 | in a directory of n such links under one unshadowed mount each leads to its target without the mount, and the cache spares all but the first the search: 2n - 1 ReadDir calls and the search, or one call if the depth is known |
| Listing.ListingKeepsRows | internal/sftpclient/client.go:143-247 | one row per entry in order; wrapped iff a link that some probe opens, whatever is cached; resolved paths are listable and pass validatePath |
| Listing.ModeFollowsIsDir | internal/sftpclient/client.go:376-397 | IsDir() and the directory bit of Mode() agree |
| Listing.ModeKeepsSymlink | internal/sftpclient/client.go:391-397 | wrapping leaves the symlink bit alone |
| Listing.ModeTouchesDirBitOnly | internal/sftpclient/client.go:391-397 | and every other bit but the directory bit |
| Listing.PromotedLinksAreClickable | internal/handlers/handlers.go:823-838 | a row is shown as a directory iff the server's entry has the directory bit or is a link some probe opens; such a link has a click path that validatePath accepts and the server lists, every other row the plain child's; name, size and time are the entry's |
| Listing.ValidatePathExact | internal/sftpclient/client.go:546-568 | accepted iff absolute without a ".." segment; which check rejects the others, and that the last never does |
| Listing.CleanOnlyDrops | internal/sftpclient/client.go:555-567 | on accepted paths cleaning only drops empty and "." segments |
| Listing.ListingCacheIndependent | internal/sftpclient/client.go:143-247 | with unambiguous link targets the rows are the same under every cached depth |
| Archive.NeverEscapes | internal/handlers/handlers.go:681-690 | the traversal check in front of a header never fires |
| Archive.ArchiveIsPreorder | internal/handlers/handlers.go:680-767 | on every server, with any cache and any bound on nested calls, the headers are an initial part of the preorder of all junction-following positions; the first position that fails or is too deep fixes the status and where they stop; without one the archive is all of it |
| Archive.PositionsExact | internal/handlers/handlers.go:728-759 | the reference order lists exactly the existing positions below the bound |
| Archive.PositionsSorted | internal/handlers/handlers.go:728-759 | the reference order is strictly preorder: a directory before its contents |
| Archive.WalkDoneIff | internal/handlers/handlers.go:728-767 | the walk ends well iff every existing position succeeds and none lies deeper than the bound |
| Archive.EachNameOnce | internal/handlers/handlers.go:701-710 | with plain distinct names per directory no header name repeats, on every server, also in an archive that never ends |
| Archive.HeaderOfSegs | internal/handlers/handlers.go:687-710 | the header name is "." for the root, else the clean path, with a final slash for directories |
| Archive.SucceedsExact | internal/handlers/handlers.go:693-724 | a node succeeds iff its path is accepted and the server has a Stat for it, and lists or opens it |
| Archive.WalkFollowsClicks | internal/handlers/handlers.go:739-757 | the walk enters the path a click on the row opens: a promoted link's listable destination, else the plain child |
| Archive.MoreBudget | internal/handlers/handlers.go:728-759 | a sufficient bound on nested calls does not matter: more gives the same walk |
| Cycles.EndsIffNotReentered | internal/handlers/handlers.go:727-760 | on every server the walk ends iff no directory is entered again with the same depth cached while being walked, and then 6 * (number of directories) + 1 nested calls are enough |
| Cycles.ReentryNeverEnds | internal/handlers/handlers.go:739-758 | if one is, every bound on nested calls is used up and exceeded by the number of headers |
| Cycles.EndsIffNoOpenCycle | internal/handlers/handlers.go:728-759 | where no listing below the requested path depends on the cache: the walk ends iff no position leads back to where it points with every call before that in preorder succeeding, and then (number of directories) + 1 nested calls are enough |
| Cycles.EndsIffNoCycle | internal/handlers/handlers.go:728-759 | if moreover no call fails, the walk ends iff the tree has no cycle at all, and then well |
| Cycles.AcyclicEnds | internal/handlers/handlers.go:727-760 | the walk ends if a rank drops along every step into a directory below the requested one, whatever cycles the server has elsewhere |
| Cycles.UnambiguousIsStable | internal/handlers/handlers.go:735 | a directory whose link targets are unambiguous lists the same whatever is cached |
| Cycles.SettledTree | internal/handlers/handlers.go:728-759 | if that holds for all directories below the requested one, the cache does not change the tree |
| Cycles.SettledArchive | internal/handlers/handlers.go:680-767 | and the archive is the preorder of that one tree, up to the first position that fails or is too deep, whatever was cached at the start |
| Cycles.TrapNeverEnds | internal/handlers/handlers.go:739-758 | directories that, whatever is cached, each lead to another of them before any row can fail are never got out of |
| Cycles.SelfLoopRow | internal/sftpclient/client_test.go:644-716 | on any server with such a junction, the listing shows it, under every cached depth, as a directory leading back to the one it is in |
| Cycles.SelfLoopLoops | internal/sftpclient/client_test.go:644-716 | so the directory has a child that leads back to it: a cycle of length one |
| Cycles.SelfLoopNeverEnds | internal/sftpclient/client_test.go:644-716 | walking that directory never ends if no row before the junction can fail |
| Cycles.TestVolumeLoops | internal/sftpclient/client_test.go:653-677 | the test's volume, under any job and volume name but a job called ProgramData, has such a junction |
| Cycles.TestVolumeNeverEnds | internal/sftpclient/client_test.go:653-677 | downloading any of its directories, from the root down, never ends |
| Zip.Archiver.WriteEntry | internal/handlers/handlers.go:680-725 | one header iff Stat succeeds; success iff the file also opens |
| Zip.Archiver.Rec | internal/handlers/handlers.go:727-760 | wherever the recursion ends, it writes the headers of Archive.Walk, leaves its depth cached, and reports failure iff it does |
| Zip.Archiver.Download | internal/handlers/handlers.go:650-768 | an empty path means the root, an unreadable one no archive, otherwise the walk from it, on every server and path for which that walk ends |
| Frs.WaitForReady | internal/k8s/frs.go:310-331 | polls at least once and at most floor(timeout/500ms) + 2 times; no error iff the first decisive poll before giving up shows Ready |
| WatchMap.WatchTable.Set | internal/handlers/wizard.go:46-53 | stores the entry, stamped with the clock iff it has no stamp |
| WatchMap.WatchTable.Sweep | internal/handlers/wizard.go:64-75 | an entry remains, unchanged, iff now - createdAt <= maxAge; the result is the size drop |
| WatchProtocol.NoOrphans | internal/handlers/wizard.go:305-307 | in every reachable state a Pending entry has its watcher about to start or running |
| WatchProtocol.AtMostOnePhaseEach | internal/handlers/wizard.go:305-375 | per reference one Pending phase and one terminal phase at most, each with one entry, Pending never after terminal |
| WatchProtocol.StagesGoUp | internal/handlers/wizard.go:305-375 | the stage of a reference never goes back, and within a stage the entry does not change |
| WatchProtocol.TerminalPhaseIff | internal/k8s/frs.go:161-205 | a terminal entry says what its watcher's last GetFRS call read: Ready iff it found the FRS Ready, Failed iff it found it Failed, each with service, namespace and port published, else Timeout; the view repeats the resource, or is zero if they are not published |
| WatchProtocol.UnpublishedEndsAsTimeout | internal/handlers/wizard.go:331-336 | if no poll of the watcher finds a published transport the entry is Timeout with a zero view, whatever the cluster says |
| WatchProtocol.FailedEndsAsTimeout | internal/handlers/wizard.go:331-336 | from any start there is a run in which the cluster says Failed from creation to end and the entry ends as Timeout |
| WatchProtocol.PendingIsReached | internal/handlers/wizard.go:305-308 | from any start there is a run that shows the entry of a new FRS as Pending |
| WatchProtocol.DeadlineIsTheWindow | internal/handlers/wizard.go:316-321 | a watcher works against the deadline of its start: the configured timeout later, or 120 seconds if none is configured |
| WatchProtocol.TimeoutIsNotEarly | internal/handlers/wizard.go:316-336 | a Timeout entry is set only after that deadline |
| WatchProtocol.PollsArePaced | internal/k8s/frs.go:310-331 | a watcher polls again only after a poll that found the FRS neither Ready nor Failed, and at least half a second after a check that found the deadline not passed, so it gives up at the first check that finds it passed |
| WatchProtocol.PendingShowsCreated | internal/handlers/wizard.go:305-306 | a Pending entry shows, field by field, the FRS as it was when created, without error and not done |
| WatchProtocol.SweepKeepsYoung | internal/handlers/wizard.go:64-75 | the sweep step keeps an entry, unchanged, iff it is no older than maxAge |
| WatchProtocol.ReappearsIff | internal/handlers/wizard.go:353-375 | an absent entry can appear again iff its create handler or watcher has not finished |
| WatchProtocol.RemovedEntryReturnsIff | internal/handlers/wizard.go:353-375 | after a handler has removed an entry, one can appear again iff the removed one was Pending |
| WatchProtocol.CancelledEntryComesBack | internal/handlers/wizard.go:371-375 | after cancelling a Pending entry a terminal one can still appear |
| WatchProtocol.SweepBoundsMemory | internal/handlers/wizard.go:64-75 | after a sweep the map is no larger than the number of sets stamped within maxAge |
| Handlers.PartialNeverNests | internal/handlers/handlers.go:479-529 | htmx never gets a full page; which reply is sent and which phase it shows, exactly: the entry decides if it has settled, else the cluster |
| Handlers.PartialSaysWhy | internal/handlers/handlers.go:500-526 | over runs: the Failed fragment is sent iff the watcher's last poll, or while nothing has settled this request's own call, found the FRS Failed and published; the Timeout fragment iff the entry settled on neither; the full page shows what the entry shows on the second look |
| Handlers.RedirectIsJustified | internal/handlers/handlers.go:497-523 | an HX-Redirect is sent iff the last poll of the watcher, once the entry has settled, or else this request's own GetFRS call found that FRS Ready and published |
| Handlers.BrowseIsJustified | internal/handlers/handlers.go:387-425 | the same reads decide, iff, whether /browse goes past a settled entry, on to connecting, or on to a pooled session; and which state the page shows in every other case, or that the gateway error is sent |
| Handlers.Server.WatchFRSCreated | internal/handlers/wizard.go:328-355 | sets the terminal entry that the last of its polls calls for |
| Handlers.Server.HandleWizardCancel | internal/handlers/wizard.go:357-377 | the map becomes that of the protocol's cancel step iff the FRS is deleted or not there; the reference can show up again iff the removed entry was Pending |
| Handlers.Server.HandleSessionDelete | internal/handlers/sessions.go:16-23 | removes the entry and every pooled session of the FRS iff the FRS is deleted or not there, and touches no other |
| Pool.Pool.Store | internal/sftpclient/pool.go:41-45 | the new state is the Store step |
| Pool.Pool.Get | internal/sftpclient/pool.go:48-68 | answers with an unexpired entry's session and refreshes it, else evicts |
| Pool.Pool.Close | internal/sftpclient/pool.go:71-81 | evicts and releases the key's session, if any |
| Pool.Pool.Sweep | internal/sftpclient/pool.go:84-101 | evicts and releases exactly the expired entries |
| Pool.Pool.CloseAllForFRS | internal/sftpclient/pool.go:118-127 | evicts and releases exactly the entries of that FRS |
| Pool.GetKeepsThePromise | internal/sftpclient/pool.go:41-127 | Get returns s iff the last Store stored s, nothing removed it since, and no two successive touches are more than ttl apart |
| Pool.SweepsAreInvisible | internal/sftpclient/pool.go:84-101 | leaving out every sweep changes no answer of Get |
| Pool.SessionsConserved | internal/sftpclient/pool.go:41-127 | stored = live + released + displaced, with multiplicity, in every run |
| Pool.ReleasedOnce | internal/sftpclient/pool.go:41-127 | a session stored once is released at most once, never while live, never if displaced |
| Pool.StoredCount | internal/sftpclient/pool.go:41-45 | storing distinct sessions stores each once |
| Pool.DisplacedExactly | internal/sftpclient/pool.go:41-45 | displaced are exactly the sessions whose entry a Store overwrote |
| Pool.StoreOnOccupiedKeyLeaks | internal/sftpclient/pool.go:41-45 | such a session is never released in any continuation; storing on a free key displaces nothing |
| Base64Url.RoundTrip | internal/auth/session.go:57-60 | decoding undoes encoding for every byte sequence |
| Base64Url.EncodedSafe | internal/auth/session.go:60 | encoded text holds no dot and no line break |
| Base64Url.EncodeExact | internal/auth/session.go:57-60 | encoded text is, over the alphabet of RFC 4648 section 5, the base-64 number of the bytes with zero bits appended up to whole characters |
| Base64Url.DecodeExact | internal/auth/session.go:82-93 | text without line breaks decodes iff it is over that alphabet and its length is not 1 modulo 4, to the whole bytes its bits make |
| Base64Url.LineBreaksIgnored | internal/auth/session.go:82-93 | a line break anywhere makes no difference to the decoder |
| Base64Url.SextetsAreBits | internal/auth/session.go:57-60 | the four characters carry the 24 bits most significant first |
| Decimal.RoundTrip | internal/auth/session.go:56 | every int64 survives printing and parsing, using only digits and '-' |
| Decimal.FormatIsCanonical | internal/auth/session.go:56 | printed numbers have a minus sign iff negative and no leading zero |
| Decimal.ParseIntExact | internal/auth/session.go:95-98 | parsing accepts one optional sign and digits, leading zeros included, if the value fits in 64 bits, and nothing else |
| Cookie.IssuedCookieSplits | internal/auth/session.go:51-62 | an issued cookie splits at dots into exactly its three parts |
| Cookie.IssuedCookieAccepted | internal/auth/session.go:76-107 | accepted at t iff ttl is not positive or t <= issue time floored to the second + ttl |
| Cookie.IssuedCookieLifetime | internal/auth/session.go:100-105 | the lifetime lies in (ttl - 1s, ttl] |
| Cookie.AcceptedCookieIsSigned | internal/auth/session.go:76-107 | a cookie is accepted iff it is an id, an encoded decimal issue time and an encoding of the code of the two, joined by dots, and the lifetime, if any, has not passed since |
| Cookie.LifetimeIsSigned | internal/auth/session.go:91-106 | cookies accepted for the same signed message are accepted at the same times |
| VmListing.ListVMs | internal/k8s/restorepoints.go:84-139 | a machine is listed iff its namespace is allowed and some restore point carries its labels; its record counts those, holds their latest time and the first name in the list at that time; namespaces ascend bytewise, then newest first, then names bytewise |
| VmListing.ListVMNamespaces | internal/k8s/restorepoints.go:144-169 | the non-empty namespaces that VM restore points are labelled with, each once, bytewise ascending |
| VmListing.StrLessIsBytewise | internal/k8s/restorepoints.go:129-137 | the string order: the first byte in which they differ decides, a proper prefix comes first |
| VmListing.LessIsStrictTotalOrder | internal/k8s/restorepoints.go:129-137 | the comparator is a strict total order on machines with different keys |
| VmListing.ListingUnique | internal/k8s/restorepoints.go:125-138 | the result does not depend on map iteration order or on the sort algorithm |
| VmListing.ListingPartitions | internal/k8s/restorepoints.go:84-169 | the unrestricted listing is the namespace-less machines followed by the per-namespace listings in namespace order |
| VmListing.SummaryMeans | internal/k8s/restorepoints.go:111-124 | the folded record counts the group, holds its latest time and the first name at that time |
| VmListing.CountsAddUp | internal/k8s/restorepoints.go:100-124 | one machine per key, and RPCounts add up to the number of matching restore points |
| VmListing.ListingReordered | internal/k8s/restorepoints.go:100-139 | reordering the restore points changes only LastRPName, and only between restore points of the same instant |

## Left out

- SSH, SFTP, HTTP, templates, htmx and the Kubernetes client: replaced by a file server value, poll and clock functions, and an arbitrary cluster.
- A file server that changes while a session uses it, or treats two spellings of a path alike: the server compares path strings literally and is fixed.
- Concurrent use of one SFTP session: each `Sftp.Session` has one caller here. The pool hands the same session to concurrent requests, and the cached depth is read and written without a lock (internal/sftpclient/client.go:319-337, internal/sftpclient/pool.go:48-68).
- HMAC-SHA256, randomness and constant-time comparison: the code is an arbitrary function of the message; nothing is claimed about forging, or about cookie text being unique. `CSRFToken` and `VerifyCSRF` are one application of that function each.
- Instants that Go's `time.Time` cannot count, and expiry times it cannot (seconds from 1970 below -2^63, or above 2^63 less some 7.2e10): the wrap-around of its arithmetic there is not modelled, not for a clock and not for an issue time read from a signed cookie.
- Tar and gzip encoding, file contents, write errors, `Content-Disposition` names: only the sequence of header names is modelled, and Open stands for opening and copying.
- Zip.Archiver.Rec: requires, as Zip.Archiver.Download does, that the walk ends, because the original does not return otherwise; what is written until then is stated on `Archive.Walk`, which takes a bound on nested calls, and the condition is exact (`Cycles.EndsIffNotReentered`).
- WatchProtocol.NoOrphans, and every result over runs: the name the API server assigns to a created FRS was never assigned before in the run.
- WatchProtocol.StagesGoUp: one critical section of the watch map, and one GetFRS call, is one step.
- Frs.WaitForReady: context cancellation is left out; every caller passes a context that is never cancelled.
- Pool.Pool.Get: reads the clock once, where the original reads it up to three times under its lock; a session's Close is counted when it is called or handed to a goroutine.
- VmListing.ListVMs: sorts by insertion into a sequence instead of in place; uniqueness of the sorted result makes the algorithm irrelevant. API errors of the list call are left out.
- Form validation in `handleWizardCreate`, `listFRS`, `ListRestorePoints`, `rpTypeFromLabels`, JSON extraction, key management, configuration, logging and metrics: one-level branching or library calls.
- `handleConnect` and the redirect to it: dialling is I/O, and that route accepts POST only, so nothing is claimed about a Ready FRS leading to a listing by itself.
