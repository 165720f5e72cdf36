# Verified model of csd-filesystem

The repository combines a Ceph and a GlusterFS tree with services that translate logical to
physical block addresses. This project models the parts of it that carry the most state and the
most arithmetic, and proves what they promise over all inputs, all runs and all interleavings.

Check it with `dafny verify dfyconfig.toml` (Dafny 4.11).

## What is modelled

**SimpleRADOSStriper**, the file layer below SQLite on RADOS, in eight modules.
`LockProtocol` is a transition system over any number of clients: the compound fast path of
`lock()`, `recover_lock()` step by step, `open()`, renewal, `unlock()`, expiring leases, crashes,
blocklists that the monitor knows before the OSD does, and metadata updates in flight. A run is any
sequence of enabled steps. `Fencing` adds the data objects, each with an OSD of its own that learns
of blocklisted clients in its own time. `StripedStore` cuts a file into objects and says what
operations do to them. `StriperSpec` gives each call as a function on values and proves the laws of
whole runs of calls. `Inflight` describes the durable store together with what is in flight, and
what a crash can make of both; `Durability` asks the same about the bytes of the file. `Striper` is
the class itself with its loops; every method is proved against `StriperSpec`, and a ghost trace of
every state a call passes through shows that no extent dangles at any point where a crash might
occur. `StriperMeta` holds the attributes they share.

**GlusterFS tools.** `Rebalance` is the size-weighted layout script, `StripeMerge` the program that
reassembles striped files in both on-disk formats.

**Ceph tools.** `InodeCache` is the doubly linked inode cache of the tracing file system,
`PerfHistogram` the flat multi-dimensional histogram, `Krbd` the event loop that waits for a mapped
block device and its matcher, `Glob` the escaping of names for udev patterns (the matcher follows
section 2.13 of the POSIX.1-2017 Shell Command Language), `SqlitePath` the database paths.

**Block addresses.** `Lba2Pba` is the range assignment of the manager and the query of the agent.

`Wrappers`, `Arithmetic` and `Bytes` are shared helpers.

## Where the code falls short of what one would expect

Each of these is followed as the code has it, with a witness and the exact condition, unless the
entry says otherwise.

- Mutual exclusion of the striper needs the recoverer to be faster than its lease: the owner
  attribute is written without asserting the lock (`LapsedRecoveryBreaksMutualExclusion`,
  `MutualExclusionExactly`). Otherwise even the stored version can go back (`VersionTurnsBack`,
  `VersionExactly`).
- Only the client that recovers waits for the latest map. That no write of a dead owner overtakes
  later ones rests on OSDs passing newer maps on to clients, beside blocklisting and the lease
  (`StaleWriteLands`, `LapsedWriteLands`, `UnblockedWriteLands`, `FencingExactly`).
- `truncate()` and `flush()` send the new size without waiting for, or before, the operations on other
  objects that it depends on, so a crash can leave a size with a hole below it (`TruncateLoses`,
  `FlushLoses`, `CrashSafeExactly`, and for each operation `WriteIsSafe`, `SizeUpdateIsSafeExactly`,
  `RemoveIsSafeExactly`).
- A read over a hole packs what follows it forward (`ShortReadMoves`, `ShortReadExactly`).
- The allocation grows from the current size, not from the size asked for, so a sparse write can
  place objects outside it, which `remove()` then leaves behind (`SparseWriteEscapes`,
  `BoundedExactly`, `RemoveLeavesOnlyDangling`).
- Growing a file by `truncate()` or writing past its end can show stale or missing bytes
  (`StaleByteReturns`, `DoIsFlatExactly`, and by sizes and offsets alone `TightGap`, `TightRuns`).
- The merge tool opens its output without truncating it (`LongTargetSpoils`, `FullRecoveryExactly`,
  `TraditionalFullExactly`).
- The layout script stops at the first brick without a layout, so new bricks have to come after all
  old ones, and of bricks with the same start it only ever tries the first (`NewBrickFirstAborts`,
  `ShortBrickFirst`, `Normalize`). It is written for integer division, which its hexadecimal output
  needs, although it names Python 3; the model uses integer division.
- A cache miss for a known inode number creates a second inode (`SecondNameSplits`, `Lookup`), and
  renaming an entry to itself loses it (`SelfRenameLoses`, `Rename`).
- The second loop of `unlink_inode()` passes a map key by reference to a function that erases it and
  then uses it (`fusetrace_ll.cc:141-142`, `172-173`). The model passes the name by value, which is
  what the loop means; the code as written is defined only when the inode has no entries.
- `escape_glob()` does not escape backslashes (`BackslashBreaks`, `EscapeExactly`).

## Model

| member | source | states |
|---|---|---|
| `LockProtocol.MutualExclusionExactly` | distributed_filesystem/ceph/src/SimpleRADOSStriper.cc:577-736 | Over all runs of any number of clients, no two clients that the OSD still serves hold the file, if and only if dead owners are blocklisted and no recoverer's lease lapses before it has written the owner attribute; both directions, the second by concrete runs |
| `LockProtocol.MutualExclusion` | distributed_filesystem/ceph/src/SimpleRADOSStriper.cc:577-772 | With blocklisting, in every reachable state of every timely interleaving, a client that holds the file and is still served is the one the owner attribute names, so there is at most one |
| `LockProtocol.InvStep` | distributed_filesystem/ceph/src/SimpleRADOSStriper.cc:547-772 | With blocklisting, every step of every client, every delivery, every map update and every lease expiry that does not hit a recoverer keeps the lock and metadata invariant |
| `LockProtocol.LockInvStep` | distributed_filesystem/ceph/src/SimpleRADOSStriper.cc:577-736 | The lock half of that invariant: a holder is named by the attribute or refused, a recoverer holds the RADOS lock, and the owner it read has not changed under it |
| `LockProtocol.LockActionKeepsLockInv` | distributed_filesystem/ceph/src/SimpleRADOSStriper.cc:584-656 | Taking the lock, blocklisting, writing the owner attribute and unlocking keep it: an owner is evicted only when the OSD refuses it from then on |
| `LockProtocol.OnlyTheHolderWrites` | distributed_filesystem/ceph/src/SimpleRADOSStriper.cc:384-442 | Where that invariant holds, a stored attribute changes only by an update of the client the owner attribute names, never by a blocklisted one, and each change raises the version by exactly one |
| `LockProtocol.VersionNeverDecreases` | distributed_filesystem/ceph/src/SimpleRADOSStriper.cc:384-442 | With blocklisting, the stored version never goes back over any timely run |
| `LockProtocol.VersionExactly` | distributed_filesystem/ceph/src/SimpleRADOSStriper.cc:384-442 | Over all runs the stored version never goes back, if and only if dead owners are blocklisted and no recoverer's lease lapses before it has written the owner attribute |
| `LockProtocol.VersionTurnsBack` | distributed_filesystem/ceph/src/SimpleRADOSStriper.cc:414-421 | Two owners that are both served count their updates independently: two of one, then one of the other, and the stored version falls |
| `LockProtocol.Handoff` | distributed_filesystem/ceph/src/SimpleRADOSStriper.cc:243-284 | With blocklisting and over timely runs: whatever happens between a successful unlock and the next successful open, crashes and blocklisting included, that open reads exactly the cache of the last owner, which is also what was stored at the unlock |
| `LockProtocol.CrashHandoff` | distributed_filesystem/ceph/src/SimpleRADOSStriper.cc:243-284 | With blocklisting and over timely runs: whatever becomes of an owner, crash and eviction included, the next successful open reads what that owner read with some prefix of the updates it issued applied in order, and nothing of anybody else |
| `LockProtocol.AlwaysRecoverable` | distributed_filesystem/ceph/src/SimpleRADOSStriper.cc:577-736 | With blocklisting, from every state that timely runs reach, whatever an owner or a recoverer left behind when it died, some timely continuation makes any ready client the owner |
| `LockProtocol.LapsedRecoveryBreaksMutualExclusion` | distributed_filesystem/ceph/src/SimpleRADOSStriper.cc:584-656 | A run in which a recoverer is slower than its lease and two clients end up as owners that are both served |
| `LockProtocol.NoBlocklistBreaksMutualExclusion` | distributed_filesystem/ceph/src/SimpleRADOSStriper.cc:617-646 | A run without blocklisting in which the old and the new owner are both served |
| `LockProtocol.RefusedExactly` | distributed_filesystem/ceph/src/SimpleRADOSStriper.cc:547-575 | Over every run: a striper answers -EBLOCKLISTED from then on if and only if a renewal of its own found its lease gone or was turned away |
| `LockProtocol.RefusedForGood` | distributed_filesystem/ceph/src/SimpleRADOSStriper.cc:560-570 | Such a striper never again locks, writes, updates, renews or unlocks anything |
| `LockProtocol.DeadForGood` | distributed_filesystem/ceph/src/SimpleRADOSStriper.cc:706-714 | A client that has crashed takes no step in any run, and its record changes only by what it had in flight |
| `LockProtocol.CrashExactly` | distributed_filesystem/ceph/src/SimpleRADOSStriper.cc:706-714 | A client stops living by a crash of its own and by nothing else |
| `LockProtocol.BlockedIsPowerless` | distributed_filesystem/ceph/src/SimpleRADOSStriper.cc:646-655 | Whatever a client that the OSD refuses tries, it changes neither lock nor owner attribute nor stored metadata, and it stays where it is or falls back |
| `LockProtocol.BusyTakesNothing` | distributed_filesystem/ceph/src/SimpleRADOSStriper.cc:697-712 | A client that finds the lock taken takes nothing and starts over |
| `LockProtocol.ListedForGood` | distributed_filesystem/ceph/src/SimpleRADOSStriper.cc:617-644 | Over every run blocklists only grow, and the OSD enforces all that was listed once it gets the map |
| `LockProtocol.EvictedForGood` | distributed_filesystem/ceph/src/SimpleRADOSStriper.cc:617-656 | With blocklisting and over timely runs: whoever is listed has held the file and never has the RADOS lock again |
| `LockProtocol.CachedSize` | distributed_filesystem/ceph/src/SimpleRADOSStriper.cc:473-477 | Over every run a client's cached size is the one it last wrote, set or found at its open |
| `LockProtocol.SizeFallsByUpdate` | distributed_filesystem/ceph/src/SimpleRADOSStriper.cc:473-477 | An owner's cached size falls only by an update that sets it, never by a write |
| `LockProtocol.FailedOpenLetsGo` | distributed_filesystem/ceph/src/SimpleRADOSStriper.cc:82-97 | If open() fails after the lock was taken, the lease can be renewed and the destructor gives the file back unchanged |
| `LockProtocol.OwnerLetsGo` | distributed_filesystem/ceph/src/SimpleRADOSStriper.cc:738-772 | Whatever a healthy owner has written and issued, some continuation flushes it and unlocks, and the stored size is then its size |
| `Fencing.FencingExactly` | distributed_filesystem/ceph/src/SimpleRADOSStriper.cc:577-656 | With one OSD for each data object: over all runs, writes take effect on each object in the order of ownership, if and only if dead owners are blocklisted, no recoverer's lease lapses before it has written the owner attribute, and an OSD gives its newer map to the clients it answers |
| `Fencing.WritesLandInOrder` | distributed_filesystem/ceph/src/SimpleRADOSStriper.cc:617-656 | Under those three conditions, once a write of some owner has taken effect on an object, no write of an evicted owner ever takes effect on it, although OSDs learn of the eviction at different times |
| `Fencing.InformedWritesFence` | distributed_filesystem/ceph/src/SimpleRADOSStriper.cc:642-656 | With blocklisting and over timely runs, whether or not OSDs share maps: once a write of an owner that had to blocklist its predecessor has taken effect on an object, no write of an earlier owner ever does |
| `Fencing.EnforcedForGood` | distributed_filesystem/ceph/src/SimpleRADOSStriper.cc:617-644 | What the OSD of an object enforces it enforces for good, and all that was listed once it gets the map |
| `Fencing.LandsExactly` | distributed_filesystem/ceph/src/SimpleRADOSStriper.cc:456-470 | A write takes effect if and only if neither the OSD nor its own map has its sender blocklisted |
| `Fencing.RefusedSendsNothing` | distributed_filesystem/ceph/src/SimpleRADOSStriper.cc:444-450 | A striper that answers -EBLOCKLISTED sends no write in any continuation |
| `Fencing.InvStep` | distributed_filesystem/ceph/src/SimpleRADOSStriper.cc:642-643 | Under those conditions every lock step, write, delivery and map update keeps every earlier holder in the blocklist of whatever a later owner knows, has sent, or has reached |
| `Fencing.StaleWriteLands` | distributed_filesystem/ceph/src/SimpleRADOSStriper.cc:669-698 | A run without map sharing: an owner that took the fast path after a recovery by someone else is overtaken by a write of the dead owner |
| `Fencing.LapsedWriteLands` | distributed_filesystem/ceph/src/SimpleRADOSStriper.cc:584-656 | A run in which a recoverer is slower than its lease: it takes the file from its successor, whose write then lands after its own |
| `Fencing.UnblockedWriteLands` | distributed_filesystem/ceph/src/SimpleRADOSStriper.cc:617-656 | A run without blocklisting: the write of the dead owner lands after that of the new one |
| `StripedStore.NextExtent` | distributed_filesystem/ceph/src/SimpleRADOSStriper.cc:99-113 | An extent starts at the offset, stays inside one object of 4 MiB, and is cut short only at the end of that object |
| `StripedStore.ObjectNameReads` | distributed_filesystem/ceph/src/SimpleRADOSStriper.cc:101-108 | An object's name is the file's, a dot, and sixteen digits that, read in base 16, give the stripe |
| `StripedStore.HexReads` | distributed_filesystem/ceph/src/SimpleRADOSStriper.cc:106-107 | Padded hexadecimal digits are lower case, as many as asked for, and read as the number |
| `StripedStore.ObjectNamesDiffer` | distributed_filesystem/ceph/src/SimpleRADOSStriper.cc:101-108 | Two different stripes never share an object name, for all stripes of up to sixteen hexadecimal digits |
| `StripedStore.WriteOpsLookup` | distributed_filesystem/ceph/src/SimpleRADOSStriper.cc:456-470 | What one write, over any number of objects, does to every logical byte of the file, including the zeros in front of it in its first object |
| `StripedStore.WriteOpsKeys` | distributed_filesystem/ceph/src/SimpleRADOSStriper.cc:456-470 | A write creates no object that its range does not touch, deletes none, and leaves the attributes alone |
| `StripedStore.ProcessingKeepsOutcome` | distributed_filesystem/ceph/src/SimpleRADOSStriper.cc:159-182 | Operations on different objects may take effect in any order: the file that results is the same |
| `StriperSpec.RoundUp` | distributed_filesystem/ceph/src/SimpleRADOSStriper.cc:358-359 | Rounding up gives the next multiple of the object size |
| `StriperSpec.RunKeepsWf` | distributed_filesystem/ceph/src/SimpleRADOSStriper.cc:384-442 | Over every run of writes, truncates and flushes the allocation is 0 or a whole number of objects of at least 128 MiB, and the durable allocation and version are the cached ones |
| `StriperSpec.BoundedExactly` | distributed_filesystem/ceph/src/SimpleRADOSStriper.cc:397-404 | A call keeps the file and all its objects inside the allocation if and only if it ends inside the allocation, or at most 128 MiB past the object boundary that follows the current size |
| `StriperSpec.ModestFits` | distributed_filesystem/ceph/src/SimpleRADOSStriper.cc:397-404 | A write at or before the end of at most 128 MiB, a flush, or a truncate that does not grow keeps the file inside its allocation |
| `StriperSpec.ModestRuns` | distributed_filesystem/ceph/src/SimpleRADOSStriper.cc:384-480 | Over every run of such calls the file stays inside its allocation, and remove() then leaves nothing behind |
| `StriperSpec.WriteAllocExactly` | distributed_filesystem/ceph/src/SimpleRADOSStriper.cc:452-456 | A write takes no space while it ends inside the allocation, and otherwise allocates up to 128 MiB past the boundary that follows the current size |
| `StriperSpec.SizeAllocExactly` | distributed_filesystem/ceph/src/SimpleRADOSStriper.cc:345-366 | Setting the size gives back all of an empty file, and otherwise whatever lies more than 128 MiB above what a file of the new size is cut down to; else nothing |
| `StriperSpec.SpaceComesBack` | distributed_filesystem/ceph/src/SimpleRADOSStriper.cc:345-366 | A truncated or flushed file never keeps 256 MiB and an object beyond its size, and an empty one keeps nothing |
| `StriperSpec.RemovedExactly` | distributed_filesystem/ceph/src/SimpleRADOSStriper.cc:292-306 | Setting the size removes exactly the objects, other than the first, that start in the part of the allocation that is given back, and leaves the others as they are |
| `StriperSpec.FlushTwice` | distributed_filesystem/ceph/src/SimpleRADOSStriper.cc:184-204 | A second flush finds nothing to do |
| `StriperSpec.RunKeepsLag` | distributed_filesystem/ceph/src/SimpleRADOSStriper.cc:473-477 | Over every run the size is marked dirty if and only if the stored size lags behind it |
| `StriperSpec.SparseWriteEscapes` | distributed_filesystem/ceph/src/SimpleRADOSStriper.cc:397-404 | One byte just past 128 MiB in a new file lies outside the allocation that is made for it |
| `StriperSpec.RunKeepsBounded` | distributed_filesystem/ceph/src/SimpleRADOSStriper.cc:384-480 | Over every run of calls that fit, no object dangles past the allocation |
| `StriperSpec.RemoveLeavesOnlyDangling` | distributed_filesystem/ceph/src/SimpleRADOSStriper.cc:115-141 | remove() leaves exactly the objects, other than the first, that start at or past the allocation |
| `StriperSpec.RemoveLeavesNothing` | distributed_filesystem/ceph/src/SimpleRADOSStriper.cc:115-141 | After any run of calls that fit, remove() leaves no object behind |
| `StriperSpec.SetMetadataKeepsBytes` | distributed_filesystem/ceph/src/SimpleRADOSStriper.cc:286-366 | Giving space back deletes no byte below the new size |
| `StriperSpec.DoIsFlatExactly` | distributed_filesystem/ceph/src/SimpleRADOSStriper.cc:143-157 | A write, truncate or flush does to the striped file what POSIX asks of a flat one if and only if every byte of the gap it leaves already reads as zero |
| `StriperSpec.StaleByteReturns` | distributed_filesystem/ceph/src/SimpleRADOSStriper.cc:150-154 | Cutting a file to nothing and growing it again brings back the byte that was cut off |
| `StriperSpec.RunIsFlat` | distributed_filesystem/ceph/src/SimpleRADOSStriper.cc:444-480 | Over every run whose gaps read as zeros the striped file holds exactly the bytes of the flat file |
| `StriperSpec.GaplessRuns` | distributed_filesystem/ceph/src/SimpleRADOSStriper.cc:444-480 | Runs of calls that start at or before the end of the file and never grow it by truncation are such runs |
| `StriperSpec.TightGap` | distributed_filesystem/ceph/src/SimpleRADOSStriper.cc:444-480 | When nothing is stored past the end, size and offset alone decide: a call is flat if and only if it starts at or before the end, or is a nonempty write past it in the object of the end |
| `StriperSpec.TightExactly` | distributed_filesystem/ceph/src/SimpleRADOSStriper.cc:143-157 | A flat call leaves nothing stored past the end if and only if it is not a truncate that cuts |
| `StriperSpec.TightRuns` | distributed_filesystem/ceph/src/SimpleRADOSStriper.cc:444-480 | Over every run that never cuts, all gaps read as zeros if and only if every call passes that test on sizes and offsets |
| `StriperSpec.NewFileIsFlat` | distributed_filesystem/ceph/src/SimpleRADOSStriper.cc:444-480 | A new file filled by such calls holds exactly the bytes of the flat file |
| `StriperSpec.ReadExactly` | distributed_filesystem/ceph/src/SimpleRADOSStriper.cc:482-515 | A read returns all it was asked for if and only if the range has no hole, and then byte for byte the range; it never returns more |
| `StriperSpec.ReadIsFlat` | distributed_filesystem/ceph/src/SimpleRADOSStriper.cc:482-515 | Every read inside a hole-free file returns exactly the slice of the flat file |
| `StriperSpec.ReadFailsExactly` | distributed_filesystem/ceph/src/SimpleRADOSStriper.cc:503-511 | A read fails if and only if some object of its range does not exist |
| `StriperSpec.ShortReadExactly` | distributed_filesystem/ceph/src/SimpleRADOSStriper.cc:503-511 | A read that is not full returns the beginning of the range, every byte in its place, if and only if no byte of the range follows a hole |
| `StriperSpec.ShortReadMoves` | distributed_filesystem/ceph/src/SimpleRADOSStriper.cc:503-511 | Two writes that fit, with a gap between them: the read packs the second byte behind the first |
| `Inflight.SettleKeepsOutcome` | distributed_filesystem/ceph/src/SimpleRADOSStriper.cc:308-313 | Waiting for the operations on one object changes nothing about the file that results, and leaves none of them in flight |
| `Inflight.IssueKeepsNoDangling` | distributed_filesystem/ceph/src/SimpleRADOSStriper.cc:422-431 | Which operations may be issued so that no object can come to lie past an allocation that is or can become durable |
| `Inflight.SurvivorHasNoDangling` | distributed_filesystem/ceph/src/SimpleRADOSStriper.cc:326-331 | If no extent dangles in a state, none dangles in any store that a crash in that state can leave, whatever part of the operations in flight still lands and in whatever order |
| `Inflight.CrashLeaksNothing` | distributed_filesystem/ceph/src/SimpleRADOSStriper.cc:115-141 | From every such store the next owner's remove() deletes every object |
| `Durability.CrashSafeExactly` | distributed_filesystem/ceph/src/SimpleRADOSStriper.cc:384-442 | Whatever part of the operations in flight lands, every byte below the durable size exists, if and only if the first object has its bytes below the size after every prefix of its operations, and all bytes in other objects below any size that is durable or on its way are durable and not being removed |
| `Durability.SurvivorPart` | distributed_filesystem/ceph/src/SimpleRADOSStriper.cc:159-182 | A crash leaves, object by object, the effect of some prefix of the operations on that object |
| `Durability.WriteIsSafe` | distributed_filesystem/ceph/src/SimpleRADOSStriper.cc:456-470 | Issuing a write never endangers a byte below the durable size |
| `Durability.SizeUpdateIsSafeExactly` | distributed_filesystem/ceph/src/SimpleRADOSStriper.cc:405-421 | Issuing a size update keeps all bytes safe if and only if, below the new size, the first object has its bytes once what is in flight for it has landed and the other objects have theirs already and keep them |
| `Durability.RemoveIsSafeExactly` | distributed_filesystem/ceph/src/SimpleRADOSStriper.cc:296-306 | Issuing the removal of an object keeps all bytes safe if and only if it starts at or past every size that is durable or on its way |
| `Durability.TruncateLoses` | distributed_filesystem/ceph/src/SimpleRADOSStriper.cc:417-438 | truncate() does not wait for its size update before it removes objects: a crash leaves the old size and a hole |
| `Durability.FlushLoses` | distributed_filesystem/ceph/src/SimpleRADOSStriper.cc:192-201 | flush() sends the size update while writes to other objects are on their way: a crash leaves the new size and a hole |
| `Striper.Striper.constructor` | distributed_filesystem/ceph/src/SimpleRADOSStriper.h:41-53 | A striper starts unlocked with nothing cached and nothing in flight |
| `Striper.Striper.OsdProcesses` | distributed_filesystem/ceph/src/SimpleRADOSStriper.cc:159-182 | Progress of the OSDs in any permitted order is invisible to the owner and cannot make an extent dangle |
| `Striper.Striper.WaitForAios` | distributed_filesystem/ceph/src/SimpleRADOSStriper.cc:159-182 | Waiting drains everything in flight and makes durable exactly the file the owner already saw |
| `Striper.Striper.IssueRemoves` | distributed_filesystem/ceph/src/SimpleRADOSStriper.cc:291-307 | Exactly the objects that start between the new and the old allocation are removed, never the first |
| `Striper.Striper.AwaitRemoves` | distributed_filesystem/ceph/src/SimpleRADOSStriper.cc:308-313 | Afterwards none of those objects exists and nothing in flight can bring one back |
| `Striper.Striper.ShrinkAlloc` | distributed_filesystem/ceph/src/SimpleRADOSStriper.cc:286-343 | The new state is the specified one, and every state on the way, any of which a crash may expose, is free of dangling extents |
| `Striper.Striper.MaybeShrinkAlloc` | distributed_filesystem/ceph/src/SimpleRADOSStriper.cc:345-366 | The same for the decision to shrink |
| `Striper.Striper.SetMetadata` | distributed_filesystem/ceph/src/SimpleRADOSStriper.cc:384-442 | The new state is the specified one, the version counts the updates issued, and no state on the way has a dangling extent if the new size is inside the allocation or at most 128 MiB past the boundary after the current size |
| `Striper.Striper.Write` | distributed_filesystem/ceph/src/SimpleRADOSStriper.cc:444-480 | The loop of asynchronous writes refines the specified write; nothing happens when blocklisted; no state on the way has a dangling extent if the write fits |
| `Striper.Striper.Read` | distributed_filesystem/ceph/src/SimpleRADOSStriper.cc:482-515 | Returns what the file holds once everything issued before has landed, and -ENOENT exactly when an object of the range is missing |
| `Striper.Striper.Truncate` | distributed_filesystem/ceph/src/SimpleRADOSStriper.cc:143-157 | The new state is the specified one, with the same guarantee for every state on the way |
| `Striper.Striper.Flush` | distributed_filesystem/ceph/src/SimpleRADOSStriper.cc:184-204 | Afterwards nothing is in flight and the durable store is the file, size and version included |
| `Striper.Striper.Remove` | distributed_filesystem/ceph/src/SimpleRADOSStriper.cc:115-141 | Afterwards the file is unlocked and its first object gone, with the lock and the owner attribute on it; without dangling extents no object is left, and none dangles in any state a crash on the way can expose |
| `Striper.Striper.Create` | distributed_filesystem/ceph/src/SimpleRADOSStriper.cc:218-241 | Succeeds exactly when the first object does not exist; otherwise nothing changes |
| `Striper.Striper.Open` | distributed_filesystem/ceph/src/SimpleRADOSStriper.cc:243-284 | The cache becomes the durable attributes; a missing object changes nothing |
| `Striper.Striper.Lock` | distributed_filesystem/ceph/src/SimpleRADOSStriper.cc:659-736 | The fast path: exactly when it succeeds, and that a busy or unclean lock changes nothing |
| `Striper.Striper.Unlock` | distributed_filesystem/ceph/src/SimpleRADOSStriper.cc:738-772 | Flushes first; succeeds if and only if the striper answers, the owner attribute names it and it has the lock; then gives up both together, and keeps both on failure |
| `Inflight.SettleAll` | distributed_filesystem/ceph/src/SimpleRADOSStriper.cc:308-313 | Waiting for the only object with operations in flight makes the whole file durable |
| `Striper.HandOver` | distributed_filesystem/ceph/src/SimpleRADOSStriper.cc:659-772 | Unlock by one client, lock by another: the second one's file is exactly the flushed file of the first |
| `Rebalance.CalcSizes` | distributed_filesystem/glusterfs/extras/rebalance.py:97-113 | The shares add up to the whole hash space whatever the sizes; each is the brick's part rounded down, the first brick with a share takes what rounding left, none is negative; both error cases exactly |
| `Rebalance.LeftoverBounds` | distributed_filesystem/glusterfs/extras/rebalance.py:98-102 | Rounding leaves less than one hash value for each brick |
| `Rebalance.Normalize` | distributed_filesystem/glusterfs/extras/rebalance.py:117-133 | Keeps every brick; the pulled-out bricks tile the hash space in order, the others keep their order; for every input it succeeds if and only if, among the bricks before the first one without a layout, the first ones at their starts cover the space |
| `Rebalance.GapIsReal` | distributed_filesystem/glusterfs/extras/rebalance.py:121-132 | Where the scan meets a gap, no choice of first bricks covers the space |
| `Rebalance.TilingFound` | distributed_filesystem/glusterfs/extras/rebalance.py:121-133 | When the scan gets through, the bricks it took are such a cover |
| `Rebalance.CoversInAnyOrder` | distributed_filesystem/glusterfs/extras/rebalance.py:121-132 | Such a cover is a cover by some of the ranges in some order, and where no two ranges share a start the converse holds as well |
| `Rebalance.NewBrickFirst` | distributed_filesystem/glusterfs/extras/rebalance.py:123-124 | The same two bricks cover the space with the old one first and do not with the new one first |
| `Rebalance.NewBrickFirstAborts` | distributed_filesystem/glusterfs/extras/rebalance.py:123-124 | The script gives up on that input although the old layout is complete |
| `Rebalance.ShortBrickFirst` | distributed_filesystem/glusterfs/extras/rebalance.py:123-129 | Two bricks that start at 0: complete in one order, a gap at 1 in the other |
| `Rebalance.GetScore` | distributed_filesystem/glusterfs/extras/rebalance.py:135-155 | The loop computes the sum of overlaps between old and new ranges |
| `Rebalance.ScoreCounts` | distributed_filesystem/glusterfs/extras/rebalance.py:135-155 | That sum is the number of hash values whose brick stays the same |
| `Rebalance.PlaceOne` | distributed_filesystem/glusterfs/extras/rebalance.py:265-278 | The brick goes to the first place of the best score among all places up to its own, staying wins every tie, and all other bricks keep their order |
| `Rebalance.Greedy` | distributed_filesystem/glusterfs/extras/rebalance.py:264-279 | Each round of the loop makes such a choice on the list the round before left |
| `Rebalance.GreedyKeeps` | distributed_filesystem/glusterfs/extras/rebalance.py:264-279 | The loop permutes the bricks and never lowers the score |
| `Rebalance.GreedyKeepsOrder` | distributed_filesystem/glusterfs/extras/rebalance.py:264-279 | The bricks that have a place after any number of rounds keep their order to the end of the loop |
| `Rebalance.RunKeepsOrder` | distributed_filesystem/glusterfs/extras/rebalance.py:264-279 | After every round: the bricks placed so far keep their order to the end, the others stand where they stood |
| `Rebalance.Finalize` | distributed_filesystem/glusterfs/extras/rebalance.py:282-286 | Each brick's new range is its share, starting where the shares before it end |
| `Rebalance.FinalizedPartition` | distributed_filesystem/glusterfs/extras/rebalance.py:282-286 | Shares that add up to the hash space give ranges in which every hash value has exactly one brick |
| `Rebalance.Rebalance` | distributed_filesystem/glusterfs/extras/rebalance.py:241-286 | For every input: when bricks are refused, and that a new layout comes out if and only if the old bricks cover the space as above; it partitions the hash space by size, takes the new bricks in the order of the input and moves each only in its own round, and moves no more hash values than doing no placement |
| `StripeMerge.GenerateCoalesced` | distributed_filesystem/glusterfs/extras/stripe-merge.c:357-397 | For striped sources with any of them missing, the copy loop leaves in the target what is specified for the file, and it terminates |
| `StripeMerge.CoalescedRecovery` | distributed_filesystem/glusterfs/extras/stripe-merge.c:347-356 | That result byte by byte: bytes of present sources are the file's, all others are what the target held before, or zero |
| `StripeMerge.FullRecoveryExactly` | distributed_filesystem/glusterfs/extras/stripe-merge.c:479-483 | With every source there, the coalesced result is the file if and only if the target was no longer than the file, because the target is not truncated |
| `StripeMerge.StripingRoundTrip` | distributed_filesystem/glusterfs/extras/stripe-merge.c:357-397 | Striping and merging gives back every file, for every stripe size and number of sources |
| `StripeMerge.GenerateTraditional` | distributed_filesystem/glusterfs/extras/stripe-merge.c:404-429 | The block loop writes the bytewise OR of all sources, whole blocks and short ends alike |
| `StripeMerge.OrRecovers` | distributed_filesystem/glusterfs/extras/stripe-merge.c:422-424 | The OR at an offset is the file's byte if its source is there and zero otherwise |
| `StripeMerge.TraditionalFullRecovery` | distributed_filesystem/glusterfs/extras/stripe-merge.c:404-429 | With every source there, whatever their lengths, the OR is the file |
| `StripeMerge.TraditionalRecovery` | distributed_filesystem/glusterfs/extras/stripe-merge.c:404-429 | From any subset of sources of any lengths and over any old target: as far as the longest source reaches, the file where its source is there and zeros in between; beyond that the old target |
| `StripeMerge.TraditionalFullExactly` | distributed_filesystem/glusterfs/extras/stripe-merge.c:479-483 | With every source there, the traditional result is the file if and only if the target was no longer than the file |
| `StripeMerge.LongTargetSpoils` | distributed_filesystem/glusterfs/extras/stripe-merge.c:479-483 | A one-byte file over a two-byte target comes out wrong in both formats |
| `StripeMerge.FormatsAgreeExactly` | distributed_filesystem/glusterfs/extras/stripe-merge.c:347-429 | For any subset of sources, any lengths and any old target, the two formats give the same result if and only if the longest source ends with a byte that a present source owns, or inside the old target, and the old target is zero in the stripes of missing sources |
| `StripeMerge.FormatsAgree` | distributed_filesystem/glusterfs/extras/stripe-merge.c:347-429 | With every source there the two formats always agree, whatever the lengths and the old target |
| `StripeMerge.ZeroTailDiffers` | distributed_filesystem/glusterfs/extras/stripe-merge.c:347-429 | A source that runs on with a zero past its last own byte, the other missing: the results differ |
| `StripeMerge.GenerateFile` | distributed_filesystem/glusterfs/extras/stripe-merge.c:431-438 | For striped sources in either format and over any old target, the result byte by byte; with every source there it is the file if and only if the old target was no longer |
| `InodeCache.RemoveDentry` | distributed_filesystem/ceph/fusetrace/fusetrace_ll.cc:135-147 | Cuts exactly one link in both indexes and keeps them mirror images |
| `InodeCache.AddDentry` | distributed_filesystem/ceph/fusetrace/fusetrace_ll.cc:149-158 | Links parent and child in both indexes, replacing what had the name, and keeps them mirror images |
| `InodeCache.UnlinkInode` | distributed_filesystem/ceph/fusetrace/fusetrace_ll.cc:160-173 | Both loops end; no link to or from the inode is left and every other link is as it was |
| `InodeCache.Cache.constructor` | distributed_filesystem/ceph/fusetrace/fusetrace_ll.cc:89-90 | A cache with its root under number 1 is valid |
| `InodeCache.Cache.RemoveInode` | distributed_filesystem/ceph/fusetrace/fusetrace_ll.cc:183-192 | The inode leaves the number index and no link in the cache mentions it |
| `InodeCache.Cache.AddInode` | distributed_filesystem/ceph/fusetrace/fusetrace_ll.cc:194-213 | A known number is reused without any of its old links, a new one gets a fresh inode; all other links are kept |
| `InodeCache.Cache.Lookup` | distributed_filesystem/ceph/fusetrace/fusetrace_ll.cc:263-288 | Both indexes stay mirror images in every case, and the cache stays valid if and only if the name was cached or the number is new: a miss always makes a second inode for a known number |
| `InodeCache.Cache.Rename` | distributed_filesystem/ceph/fusetrace/fusetrace_ll.cc:880-891 | The entry arrives under its new name if and only if that is not its old place; renaming an entry to itself loses it |
| `InodeCache.SecondNameSplits` | distributed_filesystem/ceph/fusetrace/fusetrace_ll.cc:276-282 | A second name of a known inode, looked up, leaves two inodes of one number |
| `InodeCache.SelfRenameLoses` | distributed_filesystem/ceph/fusetrace/fusetrace_ll.cc:884-887 | An entry renamed to itself leaves an inode without a name |
| `InodeCache.MakeInodePath` | distributed_filesystem/ceph/fusetrace/fusetrace_ll.cc:92-107 | Walking the names of the path down from where the climb ended leads back to the inode; it succeeds exactly when that is the root |
| `InodeCache.RenderInjective` | distributed_filesystem/ceph/fusetrace/fusetrace_ll.cc:92-107 | A path of slash-free names can be read back in only one way |
| `PerfHistogram.GetRawSize` | distributed_filesystem/ceph/src/perf_histogram.h:162-168 | The loop computes the number of bucket tuples |
| `PerfHistogram.EncodeDecode` | distributed_filesystem/ceph/src/perf_histogram.h:190-205 | Every bucket tuple has an index inside the array, and the index determines the tuple, for any number of axes |
| `PerfHistogram.DecodeEncode` | distributed_filesystem/ceph/src/perf_histogram.h:190-205 | Every index of the array is the index of a bucket tuple |
| `PerfHistogram.VisitValues` | distributed_filesystem/ceph/src/perf_histogram.h:210-226 | The recursion reports every index of its part of the array once, in order, as one item of the section it is called in; a reader of the nested sections finds each value at its bucket tuple, and each level has as many sections as there are tuples above it |
| `PerfHistogram.VisitsEverything` | distributed_filesystem/ceph/src/perf_histogram.h:210-226 | The whole traversal reports each counter exactly once in increasing order, nested as its bucket tuple says, with as many sections of each level as the product of the axes before it |
| `PerfHistogram.Incremented` | distributed_filesystem/ceph/src/perf_histogram.h:119-124 | Incrementing the counter at the index of a tuple keeps every counter the count of its own tuple |
| `PerfHistogram.CountsAddUp` | distributed_filesystem/ceph/src/perf_histogram.h:119-124 | The increments of all bucket tuples together are all increments: no tuple is missed or counted twice |
| `PerfHistogram.CountersAddUp` | distributed_filesystem/ceph/src/perf_histogram.h:119-124 | The counters in the array add up to the number of increments modulo 2^64, and exactly as long as that number is below 2^64 |
| `PerfHistogram.Histogram.constructor` | distributed_filesystem/ceph/src/perf_histogram.h:77-92 | An array with one counter for each bucket tuple |
| `PerfHistogram.Histogram.Reset` | distributed_filesystem/ceph/src/perf_histogram.h:104-110 | Afterwards every counter stands for no increments |
| `PerfHistogram.Histogram.IncBucket` | distributed_filesystem/ceph/src/perf_histogram.h:119-124 | Exactly one counter changes, every counter stays the number of increments of its tuple modulo 2^64, and all counters together stay the number of increments; out-of-range tuples are refused |
| `PerfHistogram.Histogram.ReadBucket` | distributed_filesystem/ceph/src/perf_histogram.h:126-131 | Reads the number of increments of the tuple since the last reset, modulo 2^64 |
| `Krbd.CandidatesSuffice` | distributed_filesystem/ceph/src/krbd.cc:355-363 | Gathering block devices before the bus device is known loses none that could match |
| `Krbd.UdevMapHandler.constructor` | distributed_filesystem/ceph/src/krbd.cc:351-353 | A handler that has seen nothing |
| `Krbd.UdevMapHandler.Handle` | distributed_filesystem/ceph/src/krbd.cc:364-400 | Succeeds at the first event at which the history holds the first matching bus device and a block device with its node, in whichever order they came, and reports that node with the first such device's numbers |
| `Krbd.SpecOfExactly` | distributed_filesystem/ceph/src/krbd.cc:108-120 | A device names exactly one image, by pool, namespace, name and current snapshot, where an empty snapshot stands for the image itself |
| `Krbd.SameImageExactly` | distributed_filesystem/ceph/src/krbd.cc:89-94 | Two devices name the same image if and only if those four agree |
| `Krbd.CompleteExactly` | distributed_filesystem/ceph/src/krbd.cc:355-363 | A history is complete if and only if some add event on the rbd bus is the first to name the image and some add event of a block device, before or after it, has /dev/rbd and its number as node |
| `Krbd.Drain` | distributed_filesystem/ceph/src/krbd.cc:322-344 | The verdict of a batch is that of the whole history: success at completion, or the first monitor error before it |
| `Krbd.WaitForMapping` | distributed_filesystem/ceph/src/krbd.cc:288-347 | The answer depends only on what was delivered, not on its grouping or order between the two descriptors, and is the documented pair |
| `Krbd.DueAsPromised` | distributed_filesystem/ceph/src/krbd.cc:283-347 | Not mapped, with the kernel's error, if and only if the kernel failed; mapped with 0 if and only if it answered 0 and the devices were complete before any monitor error; mapped with a monitor error if and only if it answered 0 and that error came first; the assertion fails if and only if it answered a positive value |
| `Krbd.DueStays` | distributed_filesystem/ceph/src/krbd.cc:288-347 | An answer once due is not changed by anything that would have come later |
| `Glob.EscapedMatchesItself` | distributed_filesystem/ceph/src/krbd.cc:623-628 | The escaped form of a name without backslashes matches that name and nothing else |
| `Glob.BackslashBreaks` | distributed_filesystem/ceph/src/krbd.cc:623-628 | With a backslash the escaped name does not even match itself |
| `Glob.EscapeExactly` | distributed_filesystem/ceph/src/krbd.cc:623-628 | Escaping makes a pattern for exactly one name if and only if the name has no backslash |
| `SqlitePath.ParseExactly` | distributed_filesystem/ceph/src/libcephsqlite.cc:382-398 | The parser returns a location if and only if one of the two regular expressions, given as expressions with their own matching relation, matches the whole path with those groups, so the groups are unique |
| `SqlitePath.AcceptsExactly` | distributed_filesystem/ceph/src/libcephsqlite.cc:384-385 | The two expressions match exactly the paths that are slashes, a pool name or a star and a number, a colon, a namespace, a slash and a name |
| `SqlitePath.FullPathnameExactly` | distributed_filesystem/ceph/src/libcephsqlite.cc:661-680 | For every path and buffer: the canonical form if the path is accepted and the form fits with one byte to spare, and otherwise which of the two is missing |
| `SqlitePath.PrintParses` | distributed_filesystem/ceph/src/libcephsqlite.cc:675 | The canonical form of an accepted path names the same location |
| `SqlitePath.FullPathnameCanonical` | distributed_filesystem/ceph/src/libcephsqlite.cc:661-680 | Making a path canonical is idempotent, and two paths share a canonical form if and only if they share a location |
| `Lba2Pba.AssignRanges` | api-server/LB2PBA/LBA2PBA_Manager/lba2pba_manager.py:147-154 | The ranges of the extents are their cumulative lengths |
| `Lba2Pba.LocateIn` | api-server/LB2PBA/LBA2PBA_Manager/lba2pba_manager.py:147-154 | A byte of the range of an extent lies in that extent, at its place |
| `Lba2Pba.LB2PBA` | api-server/LB2PBA/LBA2PBA_Query_Agent/lba2pba_query_agent.py:50-114 | The pieces, byte by byte, are the physical places of the logical range in order, clipped at the end of the file; there is one for each extent from the one that holds the first byte to the first that reaches past the range, or the last; nothing for unknown files and for ranges that start outside |

## Left out

- Ceph, GlusterFS and MinIO themselves: of the vendored trees only the files cited above are modelled.
- The services around the block-address query (process start, HTTP routes, storage of the extent tables), the web and container plumbing and generated code: what they decide is the range assignment and the query, which are modelled; the rest starts processes and passes values on.
- LockProtocol: `remove()` by an owner, operations whose success the client does not learn, and blocklist entries that expire are not steps of the model; a client that dies does so between its atomic operations.
- LockProtocol: time is abstract; a lease may run out at any moment, and the timely runs are those in which it does not do so under a recoverer.
- Striper: errors of individual RADOS operations, partial writes after such an error, the failure counter of `wait_for_aios`, performance counters and logging.
- Fencing: writes stand for all operations on data objects; their contents and the removal of objects are in `Striper`.
- Striper: sizes and offsets are unbounded, so 64-bit wrap-around is not modelled.
- Striper.Striper.WaitForAios: does not model the non-blocking mode, which only forgets finished completions, or the failure code it records.
- Striper.Striper.Lock: does not model the wait and recovery branches, which `LockProtocol` covers as steps.
- Striper.Striper.Read: reads object after object instead of issuing all reads first; one owner makes no other call in between.
- Rebalance.Rebalance: does not model the volume file, mounting, `statvfs`, or writing the attributes; sizes and ranges are inputs.
- Rebalance: bricks are values and lists are sequences; that the original updates brick objects shared between its lists is not modelled.
- StripeMerge.GenerateCoalesced: says nothing about sources that are not the stripes of some file, and, as the original would not terminate then, not about all sources missing; validation of the attributes, read errors and short writes are not modelled.
- InodeCache.UnlinkInode: does not model the third loop, which closes file descriptors, or the reference to an erased key described above.
- InodeCache.Cache.Lookup: does not model that a cached entry may get another number when its attributes are read again.
- InodeCache: file descriptors, reference counts, attributes and permissions; the order of a map's first element, which is any element here.
- InodeCache.MakeInodePath: takes a ranking that shows the parent links acyclic, without which the original recursion does not end.
- PerfHistogram: overflow of 32- and 64-bit indexes, concurrent increments, and the mapping of values to buckets.
- Krbd.UdevMapHandler.Handle: does not model the assertions that compare device numbers with the bus device, and stands for mapping only, not for unmapping.
- Krbd.WaitForMapping: says nothing about an answer equal to INT_MAX, the value that marks a missing one; a finite sequence of returns of `poll()` stands for any prefix of the endless loop.
- Glob: named classes, collating symbols and equivalence classes in brackets, which escaped names never contain.
- SqlitePath: a hyphen after a named class in brackets is read as itself, as the paths in use need; embedded NUL characters, and locales in which more than ASCII letters and digits are alphanumeric.
- Lba2Pba.LB2PBA: of a negative length it says only that one piece with that length comes out, in the extent and at the offset of the first byte.
