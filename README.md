# A verified model of the core of the contour terminal

This project models, in Dafny, seven parts of the contour terminal emulator and
proves properties of them:

- **The read-readiness selector** (`src/crispy/read_selector.h`), module `ReadSelector`.
  It has two backends with the operations want_read, cancel_read, wakeup and wait_one.
  - The portable `posix_read_selector` keeps the watched descriptors in a sorted list
    (duplicates kept), the read fd_set and a FIFO of pending descriptors. Its break pipe
    is initialised to `{-1, -1}` and never opened, so `wakeup` does nothing.
    `::select` overwrites the read set with the ready set.
  - The Linux `epoll_read_selector` keeps only the pending FIFO. An eventfd carries
    wakeups. Its `wait_one` retries on EINTR, triages reported events and picks errno.
  - Kernel calls are inputs to the methods: what `::select` or each `epoll_wait` call
    reported. Kernel-side state (the epoll interest set, the eventfd counter, the select
    calls made) is kept in fields.
- **The VT function table** (`src/vtbackend/Functions.h`), modules `Functions` and
  `SupportedSequences`.
  - The total order `compare` and the relational operators built on it.
  - The bit-packed `id()`, in 32-bit arithmetic with its wrap-around.
  - The serialiser `operator()`, which writes the control-sequence layout of section
    5.4 of ECMA-48: introducer, leader, `;`-separated parameters, intermediate, final.
  - The selector comparison and the three selector constructors.
  - The `SupportedSequences` array: an active prefix sorted by `compare` and a disabled
    suffix, reordered in place by reset, disableSequence and enableSequence.
  - `id()` is not injective: `IdCollision` exhibits two different definitions with the
    same id. The claim of perfect hashing in the comment on `std::hash` therefore does
    not hold.
- **The modifier bitmask and the pending-output window** (`src/vtbackend/InputGenerator.h`),
  module `InputGenerator`: the `Modifier` algebra, `makeVirtualTerminalParam`, the
  Modifier formatter, the key-mode predicates, and `peek`/`consume`.
- **The configuration helpers** (`src/contour/Config.cpp`), module `Config`:
  - the case-insensitive lookups `toPermission`, `parseModifierKey` and `parseKey`, and
    the exact lookup `stringToVTType`;
  - `sanitizeRange`, `appendOrCreateBinding` and the string part of `parseMatchModes`;
  - font-feature tag parsing;
  - the history-limit, bell and pty-buffer-size normalisations.
  YAML values appear as the strings and integers already read out of the document.
- **Image tiling** (`src/vtbackend/Image.cpp`), module `Images`:
  `RasterizedImage::fragment`, which cuts one cell's RGBA tile out of an image into a
  fresh array through an advancing write position, and `ImagePool::create`'s id
  allocation.
- **Text-run grouping** (`src/terminal_view/TextRenderer.cpp`), module `TerminalView`:
  the Empty/Filling state machine of `schedule`, with `reset`, `extend`,
  `flushPendingSegments` and `execute`. Flushed segments go into a ghost log.
- **The rasterizer's text cluster group and direct-mapping check**
  (`src/vtrasterizer/TextRenderer.h`), module `Rasterizer`.

Every source file has its own module; `Wrappers` holds the `Option` type. Code that
updates state in place is modelled as classes with `modifies` clauses. This covers the
selectors, the function table, the input generator's buffer, both text renderers and
the image pool. Pure code is modelled as functions with lemmas.

## Model

| member | source | states |
|---|---|---|
| ReadSelector.ToTimeval | src/crispy/read_selector.h:67-73 | The timeval wait_one builds denotes exactly the timeout: seconds times 10^6 plus microseconds equals milliseconds times 1000, with C++ truncating division. For a non-negative timeout the microseconds lie in [0, 10^6). |
| ReadSelector.TruncDiv | src/crispy/read_selector.h:71 | No contract of its own: C++ `/` on the millisecond count, truncating toward zero. ToTimeval states what it computes together with TruncMod. |
| ReadSelector.TruncMod | src/crispy/read_selector.h:72 | No contract of its own: C++ `%`, whose remainder takes the sign of the dividend. ToTimeval states its use. |
| ReadSelector.SelectTimeout | src/crispy/read_selector.h:67-73 | No contract of its own: a null timeval without a timeout, otherwise ToTimeval of it. WaitOne states that the select call receives it. |
| ReadSelector.ToInt32 | src/crispy/read_selector.h:210 | The `static_cast<int>` of the timeout is a 32-bit signed value congruent to the millisecond count modulo 2^32. |
| ReadSelector.EpollTimeout | src/crispy/read_selector.h:207-210 | No contract of its own: -1 without a timeout, otherwise the `static_cast<int>` of it. EpollTimeoutExact and EpollLongTimeoutWaitsForever state its values. |
| ReadSelector.EpollTimeoutExact | src/crispy/read_selector.h:205-210 | No timeout makes epoll_wait wait forever (-1). A timeout that fits in an int is passed unchanged. |
| ReadSelector.EpollLongTimeoutWaitsForever | src/crispy/read_selector.h:210 | The cast makes a timeout negative exactly when its count modulo 2^32 is at least 2^31, and then no epoll_wait outcome is a timeout: the wait is forever. A count of 2^32 - 1 modulo 2^32 becomes exactly -1. |
| ReadSelector.InsertAscending | src/crispy/read_selector.h:44-45 | push_back followed by sort adds exactly one occurrence of the descriptor and keeps every previous entry, as a multiset. |
| ReadSelector.InsertAscendingSorted | src/crispy/read_selector.h:44-45 | The watched list stays sorted ascending after an insertion. |
| ReadSelector.RemoveAll | src/crispy/read_selector.h:51 | No contract of its own: erase/remove of one descriptor. RemoveAllCounts, RemoveAllSubset and RemoveAllSorted state its meaning. |
| ReadSelector.RemoveAllCounts | src/crispy/read_selector.h:51 | erase/remove leaves no occurrence of the descriptor and keeps the count of every other one. |
| ReadSelector.RemoveAllSubset | src/crispy/read_selector.h:51 | Removal introduces no new descriptor. |
| ReadSelector.RemoveAllSorted | src/crispy/read_selector.h:51 | Removal keeps the remaining descriptors in their sorted order. |
| ReadSelector.ReadyInOrder | src/crispy/read_selector.h:89-91 | No contract of its own: the watched descriptors that are set in the ready set, in list order. ReadyInOrderCounts, ReadyInOrderSubset, ReadyInOrderSorted and ReadyInOrderNonEmpty state its meaning. |
| ReadSelector.ReadyInOrderCounts | src/crispy/read_selector.h:89-91 | The scan queues a ready descriptor as often as it is watched, so duplicates are queued twice. It never queues a descriptor that was not reported ready. |
| ReadSelector.ReadyInOrderSubset | src/crispy/read_selector.h:89-91 | Only watched descriptors are queued. |
| ReadSelector.ReadyInOrderSorted | src/crispy/read_selector.h:89-91 | Ready descriptors are queued in ascending order. |
| ReadSelector.ReadyInOrderNonEmpty | src/crispy/read_selector.h:89-93 | If some watched descriptor is ready, the scan queues at least one, so the final try_pop_pending returns a descriptor. |
| ReadSelector.ReadyIsWatched | src/crispy/read_selector.h:75-91 | A non-empty ready set that `::select` reports out of the watched bits contains a watched descriptor. |
| ReadSelector.BitsMembers | src/crispy/read_selector.h:33-43 | The fd_set built by FD_SET over a list holds exactly the list's descriptors. |
| ReadSelector.InsertAscendingFds | src/crispy/read_selector.h:43-45 | After want_read every watched descriptor is still one FD_SET accepts. |
| ReadSelector.RemoveAllFds | src/crispy/read_selector.h:50-51 | After cancel_read every watched descriptor is still in range, and every bit of the read set other than the cancelled one is still a watched descriptor. |
| ReadSelector.PosixReadSelector.constructor | src/crispy/read_selector.h:110-116 | A default selector watches nothing, has nothing pending, and has both break-pipe ends at -1. |
| ReadSelector.PosixReadSelector.Create | src/crispy/read_selector.h:33-39 | create(fds) leaves the watched list sorted and equal, as a multiset, to the argument list. The read set holds exactly the argument descriptors and nothing is pending. |
| ReadSelector.PosixReadSelector.WantRead | src/crispy/read_selector.h:41-46 | The read set gains the descriptor. The list becomes the sorted insertion, one more occurrence as a multiset. Pending descriptors and the kernel log do not change. |
| ReadSelector.PosixReadSelector.CancelRead | src/crispy/read_selector.h:48-52 | The read set loses the descriptor. The list loses every occurrence of it and keeps the others in order. Nothing else changes. |
| ReadSelector.PosixReadSelector.Wakeup | src/crispy/read_selector.h:54-58 | Writes into the break pipe only when its write end is open. That end is never opened, so in a valid selector the call changes nothing. |
| ReadSelector.PosixReadSelector.TryPopPending | src/crispy/read_selector.h:97-108 | Returns and removes the oldest pending descriptor. With nothing pending it returns none with errno EAGAIN. |
| ReadSelector.PosixReadSelector.Scan | src/crispy/read_selector.h:89-91 | The pending queue becomes the watched descriptors found in the ready set, in list order. |
| ReadSelector.PosixReadSelector.WaitOne | src/crispy/read_selector.h:60-94 | With a descriptor pending, wait_one returns the front without a kernel call. Otherwise it makes exactly one `::select` call on `fds.back() + 1` descriptors with the timeval of the timeout. A timeout gives EAGAIN and clears the read set. An error passes its errno through. A ready set replaces the read set and queues the ready watched descriptors in ascending order; the first is returned and the rest stay pending. |
| ReadSelector.FdIssetDefined | src/crispy/read_selector.h:80 | No contract of its own: the descriptors FD_ISSET is defined on, those FD_SET accepts. BreakPipeSignalled and BreakPipeTestUndefined state its role. |
| ReadSelector.BreakPipeSignalled | src/crispy/read_selector.h:80 | The break-pipe test as evidently intended. It holds only for a descriptor FD_ISSET is defined on, never while the pipe end is -1, and it agrees with FD_ISSET wherever that is defined. |
| ReadSelector.PosixReadSelector.BreakPipeTestUndefined | src/crispy/read_selector.h:80 | In every valid selector the descriptor the source hands FD_ISSET after each successful select is outside FD_ISSET's domain. The corrected test is then false for every read set. |
| ReadSelector.PosixReadSelector.WaitOneOnCopy | src/crispy/read_selector.h:60-94 | wait_one with ::select given a copy of the read set. The read set and watched list are unchanged by the call, so every later select watches the same descriptors. Pending, timeout, error and ready results are as in WaitOne. |
| ReadSelector.ReadSetShrinks | src/crispy/read_selector.h:75 | As written, watching 5 and 9: after a wait on which only 5 is ready, the next select is given {5}; after a timed-out wait it is given nothing, while 5 and 9 are still watched. |
| ReadSelector.ReadSetKept | src/crispy/read_selector.h:75 | With select on a copy, the same two waits leave {5, 9} as the read set of every later select. |
| ReadSelector.FirstDecisive | src/crispy/read_selector.h:203-222 | The retry loop stops at the first epoll_wait call that was not interrupted by EINTR. Every earlier call was interrupted. |
| ReadSelector.QueuedProperties | src/crispy/read_selector.h:224-234 | Triage never queues the eventfd. It queues every other reported descriptor as often as it was reported, and nothing else. |
| ReadSelector.TriageStep | src/crispy/read_selector.h:224-234 | One more triaged event appends that descriptor to the queue, unless it is the eventfd. |
| ReadSelector.Queued | src/crispy/read_selector.h:225-234 | No contract of its own: the reported descriptors other than the eventfd, in report order. QueuedProperties and TriageStep state its meaning. |
| ReadSelector.Piped | src/crispy/read_selector.h:224-231 | No contract of its own: the batch reports the eventfd once and its counter is non-zero, so the read succeeds. EpollReadSelector.Triage and WaitOne state its role in the errno. |
| ReadSelector.EpollReadSelector.constructor | src/crispy/read_selector.h:144-156 | Given two valid distinct descriptors from epoll_create1 and eventfd, the selector registers the eventfd for reading. The counter is 0 and nothing is pending. |
| ReadSelector.EpollReadSelector.Close | src/crispy/read_selector.h:158-162 | The destructor closes the selector's own two descriptors and nothing else. |
| ReadSelector.EpollReadSelector.WantRead | src/crispy/read_selector.h:165-171 | EPOLL_CTL_ADD adds the descriptor to the interest set. |
| ReadSelector.EpollReadSelector.CancelRead | src/crispy/read_selector.h:174-180 | EPOLL_CTL_DEL removes the descriptor from the interest set. Pending entries are not purged. |
| ReadSelector.EpollReadSelector.Wakeup | src/crispy/read_selector.h:182-186 | Writing 1 to the eventfd adds 1 to its counter. |
| ReadSelector.EpollReadSelector.TryPopPending | src/crispy/read_selector.h:188-196 | Returns and removes the oldest pending descriptor, or none when the queue is empty. |
| ReadSelector.EpollReadSelector.Triage | src/crispy/read_selector.h:224-234 | The queue becomes the reported descriptors other than the eventfd, in report order. Reading the eventfd resets its counter. `piped` is set exactly when the eventfd was reported once and a wakeup was pending. |
| ReadSelector.EpollReadSelector.WaitOne | src/crispy/read_selector.h:198-242 | A pending descriptor is returned without a kernel call. Otherwise epoll_wait is called, with the converted timeout, until a call is not interrupted by EINTR. A result of 0 gives EAGAIN. Another failure passes its errno through. Reported events are triaged; a queued descriptor wins over a wakeup. With nothing queued, errno is EINTR after a successful drain and EAGAIN otherwise. |
| Functions.LexLessIrreflexive | src/vtbackend/Functions.h:115-133 | The lexicographic order behind compare is irreflexive. |
| Functions.LexLessTransitive | src/vtbackend/Functions.h:115-133 | That lexicographic order is transitive. |
| Functions.LexLessTotal | src/vtbackend/Functions.h:115-133 | That lexicographic order is total on keys of equal length. |
| Functions.Key | src/vtbackend/Functions.h:115-133 | No contract of its own: the fields compare reads, in the order it reads them. |
| Functions.Compare | src/vtbackend/Functions.h:115-133 | No contract of its own: compare() field by field. CompareIsLexicographic, CompareReflexive, CompareAntisymmetric and CompareTransitive state its meaning. |
| Functions.CompareIsLexicographic | src/vtbackend/Functions.h:115-133 | compare is negative, zero or positive exactly when the key (category, final, leader, intermediate, minimum, maximum) is lexicographically below, equal to or above the other's. |
| Functions.CompareReflexive | src/vtbackend/Functions.h:115-133 | compare(a, a) == 0. |
| Functions.CompareAntisymmetric | src/vtbackend/Functions.h:115-133 | compare(b, a) is the negation of compare(a, b). |
| Functions.CompareTransitive | src/vtbackend/Functions.h:115-133 | `<=` by compare is transitive, so compare is a total preorder to sort by. |
| Functions.Equal | src/vtbackend/Functions.h:136 | No contract of its own: `==` as compare(a, b) == 0. RelationalOperators states its meaning. |
| Functions.NotEqual | src/vtbackend/Functions.h:137 | No contract of its own: `!=`. RelationalOperators states its meaning. |
| Functions.LessEq | src/vtbackend/Functions.h:138 | No contract of its own: `<=`. RelationalOperators states its meaning. |
| Functions.GreaterEq | src/vtbackend/Functions.h:139 | No contract of its own: `>=`. RelationalOperators states its meaning. |
| Functions.Less | src/vtbackend/Functions.h:140 | No contract of its own: `<`. RelationalOperators states its meaning. |
| Functions.Greater | src/vtbackend/Functions.h:141 | No contract of its own: `>`. RelationalOperators states its meaning. |
| Functions.RelationalOperators | src/vtbackend/Functions.h:136-141 | `==` holds iff the keys are equal. `!=` is its negation. `<` is irreflexive and trichotomous, and `a < b` iff `b > a`. `<=` is `<` or `==`, and `>=` is the mirrored `<=`. |
| Functions.EqualIgnoresMetadata | src/vtbackend/Functions.h:115-141 | Definitions that differ only in conformance level, extension, mnemonic or comment compare equal. |
| Functions.C0Definition | src/vtbackend/Functions.h:186-195 | No contract of its own: detail::C0, a final byte with no leader, intermediate or parameters. |
| Functions.OscDefinition | src/vtbackend/Functions.h:197-209 | No contract of its own: detail::OSC, with the code stored as maximumParameters. SelectOSCommandMatches states how it is found. |
| Functions.EscDefinition | src/vtbackend/Functions.h:211-227 | No contract of its own: detail::ESC with an optional intermediate. SelectEscapeMatches states how it is found. |
| Functions.CsiDefinition | src/vtbackend/Functions.h:229-249 | No contract of its own: detail::CSI with leader, parameter range, intermediate and final. SelectControlMatches states how it is found. |
| Functions.DcsDefinition | src/vtbackend/Functions.h:273-293 | No contract of its own: detail::DCS, the DCS counterpart of CsiDefinition. |
| Functions.Id | src/vtbackend/Functions.h:81-110 | No contract of its own: id() in 32-bit unsigned arithmetic. IdCategoryBits, IdOfBareCategory, IdDependsOnlyOnKey, IdCollision, IdIgnoresLessThanLeader and IdOfDecsc state its properties. |
| Functions.IdCategoryBits | src/vtbackend/Functions.h:81-110 | The low three bits of id() are the category's value. |
| Functions.CategoryMaskIsValue | src/vtbackend/Functions.h:95 | The category mask is the category's value, below 8. |
| Functions.MasksClearLowBits | src/vtbackend/Functions.h:97-107 | Every mask other than the category's, wrapped or not, has zero low three bits. |
| Functions.IdOfBareCategory | src/vtbackend/Functions.h:95-109 | A zero leader, intermediate, final and parameter range contribute nothing: the id is the category value. |
| Functions.IdDependsOnlyOnKey | src/vtbackend/Functions.h:95-109 | id() depends only on category, leader, intermediate, final and the parameter range. Conformance level, extension, mnemonic and comment do not affect it. |
| Functions.IdCollision | src/vtbackend/Functions.h:789-797 | An ESC definition with intermediate `/` and final `@`, and one with final `A`, are different, yet both have id 0x401. So the id is not a perfect hash. |
| Functions.IdIgnoresLessThanLeader | src/vtbackend/Functions.h:97-98 | The leader `<` encodes to 0, like no leader, so two unequal definitions share an id. |
| Functions.IdOfDecsc | src/vtbackend/Functions.h:102-104 | For a final below 0x40 (DECSC's `7`) the subtraction wraps around: DECSC's id is 0xFFFFDC01. |
| Functions.IdFinalBelow0x40 | src/vtbackend/Functions.h:102-109 | For every final symbol from 1 to 0x3F the wrapped subtraction sets all 16 top bits of id(). They cover both parameter-count fields, so id() of such a definition does not depend on its parameter counts. |
| Functions.PackedKey | src/vtbackend/Functions.h:789-797 | No contract of its own: a hash with one range per compared field, the corrected counterpart of id() for the perfect-hashing claim. |
| Functions.PackedKeyInjective | src/vtbackend/Functions.h:789-797 | Two definitions have the same PackedKey exactly when operator== holds, so PackedKey is a perfect hash, which id() is not. |
| Functions.PackedKeySeparatesCollision | src/vtbackend/Functions.h:789-797 | The two ESC definitions id() maps to 0x401 get different PackedKeys. |
| Functions.Decimal | src/vtbackend/Functions.h:70 | A parameter is written as a non-empty string of decimal digits. |
| Functions.DecimalRoundTrip | src/vtbackend/Functions.h:70 | Reading the digits back gives the parameter. |
| Functions.TerminatedIsJoinedPlusSemicolon | src/vtbackend/Functions.h:67-72 | The fold writes each parameter followed by `;`. Dropping the last character leaves the parameters joined by `;`. |
| Functions.Serialize | src/vtbackend/Functions.h:50-77 | The output is the category's introducer ("", ESC, ESC [, ESC ], ESC P), then the leader if non-zero, then the parameters joined by `;` (nothing when there are none), then the intermediate if non-zero, then the final byte, which ends it. The caller passes between minimumParameters and maximumParameters arguments. |
| Functions.SplitJoin | src/vtbackend/Functions.h:67-72 | Splitting the joined parameters on `;` yields one field per parameter, its decimal digits. |
| Functions.SerializeRoundTrip | src/vtbackend/Functions.h:50-77 | Stripping the introducer, leader, intermediate and final byte off the output and splitting the rest on `;` gives the parameters back. |
| Functions.SelectorMatch | src/vtbackend/Functions.h:158-182 | An OSC selector compares 0 iff its syntax fields are equal and argc equals maximumParameters. Any other selector compares 0 iff those fields are equal and argc is in [min, max]. With equal fields it compares -1 when argc is below min, and +1 when argc is at least min and above max. |
| Functions.SelectorBelowIsMonotone | src/vtbackend/Functions.h:115-182 | A non-OSC selector below a definition is below every definition that sorts after it, which a search over the sorted table relies on. |
| Functions.CompareSelector | src/vtbackend/Functions.h:158-182 | No contract of its own: compare(FunctionSelector, FunctionDefinition). SelectorMatch and SelectorBelowIsMonotone state its meaning. |
| Functions.SelectEscape | src/vtbackend/Functions.h:748-753 | No contract of its own: selectEscape. SelectEscapeMatches states what it matches. |
| Functions.SelectControl | src/vtbackend/Functions.h:765-772 | No contract of its own: selectControl. SelectControlMatches states what it matches. |
| Functions.SelectOSCommand | src/vtbackend/Functions.h:781-785 | No contract of its own: selectOSCommand. SelectOSCommandMatches states what it matches. |
| Functions.SelectEscapeMatches | src/vtbackend/Functions.h:748-753 | selectEscape matches exactly the ESC definitions without leader and with that intermediate, that final and no minimum parameter count. Every ESC definition is found by its own selector. |
| Functions.SelectControlMatches | src/vtbackend/Functions.h:765-772 | selectControl matches a CSI definition with its fields exactly when argc lies in the definition's parameter range. |
| Functions.SelectOSCommandMatches | src/vtbackend/Functions.h:781-785 | selectOSCommand(id) matches an OSC definition exactly when the codes agree, and sorts below it exactly when id is smaller. |
| SupportedSequences.Insert | src/vtbackend/Functions.h:695-699 | Inserting into a run adds exactly that definition, as a multiset. |
| SupportedSequences.Sort | src/vtbackend/Functions.h:695-699 | crispy::sort keeps length and multiset. |
| SupportedSequences.InsertSorted | src/vtbackend/Functions.h:695-699 | Inserting into a sorted run keeps it sorted by compare. |
| SupportedSequences.SortSorted | src/vtbackend/Functions.h:695-699 | crispy::sort's result is sorted by compare. |
| SupportedSequences.FirstMatch | src/vtbackend/Functions.h:704 | std::find with `==` gives the first position holding an equal definition, or the end. |
| SupportedSequences.SortedWithout | src/vtbackend/Functions.h:705-708 | Taking one entry out of a sorted prefix leaves it sorted, which the rotate in disableSequence relies on. |
| SupportedSequences.RotatedAt | src/vtbackend/Functions.h:708 | std::rotate(it, it + 1, end) moves the entry to the end and the later entries up by one, keeping the multiset. |
| SupportedSequences.RotatedPrefix | src/vtbackend/Functions.h:705-709 | After the rotation, the active prefix shrunk by one is the old prefix with that entry taken out. |
| SupportedSequences.SwapIntoPrefix | src/vtbackend/Functions.h:718-719 | iter_swap of the found entry with the first disabled one grows the prefix by exactly that entry. The disabled part then holds the rest. |
| SupportedSequences.SupportedSequences.constructor | src/vtbackend/Functions.h:729-731 | The array starts as the sorted table of all definitions, every one active. |
| SupportedSequences.SupportedSequences.AllSequences | src/vtbackend/Functions.h:676-679 | allSequences views the whole array. |
| SupportedSequences.SupportedSequences.ActiveSequences | src/vtbackend/Functions.h:681-684 | activeSequences views the first `_lastIndex` entries, which are sorted by compare. |
| SupportedSequences.SupportedSequences.Swap | src/vtbackend/Functions.h:718 | iter_swap exchanges two entries and keeps the multiset. |
| SupportedSequences.SupportedSequences.SortPrefix | src/vtbackend/Functions.h:720-723 | Sorting the first n entries makes them the sorted arrangement of their old contents. The rest of the array is untouched. |
| SupportedSequences.SupportedSequences.Find | src/vtbackend/Functions.h:704 | std::find over a range returns the first position holding an equal definition, or the range's end. |
| SupportedSequences.SupportedSequences.Partition | src/vtbackend/Functions.h:690-693 | std::partition reorders the array by swaps so that definitions with conformance level at most vt come first. It returns the boundary and keeps the multiset. |
| SupportedSequences.SupportedSequences.Reset | src/vtbackend/Functions.h:686-700 | After reset(vt), the active prefix holds exactly the definitions with conformance level at most vt, sorted by compare. The suffix holds the others. The array is a permutation of its prior contents. |
| SupportedSequences.SupportedSequences.RotateToEnd | src/vtbackend/Functions.h:708 | The in-place rotation makes the array the rotated sequence, a permutation. |
| SupportedSequences.SupportedSequences.DisableSequence | src/vtbackend/Functions.h:702-711 | If an active entry equals the definition, the first such entry is rotated to the array's end and the active count drops by exactly 1. Otherwise nothing changes. The prefix stays sorted and the array stays a permutation. |
| SupportedSequences.SupportedSequences.EnableSequence | src/vtbackend/Functions.h:713-727 | If a disabled entry equals the definition, the first such entry joins the active prefix: the count grows by exactly 1 and the prefix gains exactly that entry, re-sorted. The disabled part holds the rest. Otherwise nothing changes. The array stays a permutation. |
| InputGenerator.ContainsHasNoOutsideBits | src/vtbackend/InputGenerator.h:84-87 | contains(o) implies that o has no bit outside the mask. |
| InputGenerator.Modifier.None | src/vtbackend/InputGenerator.h:57 | No contract of its own: none(). EmptinessPredicates states its meaning. |
| InputGenerator.Modifier.Some | src/vtbackend/InputGenerator.h:58 | No contract of its own: some(). EmptinessPredicates states its meaning. |
| InputGenerator.Modifier.Any | src/vtbackend/InputGenerator.h:66 | No contract of its own: any(). EmptinessPredicates states that it agrees with some(). |
| InputGenerator.Modifier.HasShift | src/vtbackend/InputGenerator.h:59 | No contract of its own: shift(). KeyPredicates states its meaning. |
| InputGenerator.Modifier.HasAlt | src/vtbackend/InputGenerator.h:60 | No contract of its own: alt(). KeyPredicates states its meaning. |
| InputGenerator.Modifier.HasControl | src/vtbackend/InputGenerator.h:61 | No contract of its own: control(). KeyPredicates states its meaning. |
| InputGenerator.Modifier.HasMeta | src/vtbackend/InputGenerator.h:62 | No contract of its own: meta(). KeyPredicates states its meaning. |
| InputGenerator.Modifier.With | src/vtbackend/InputGenerator.h:68-77 | No contract of its own: with(), and the value `|=` stores. WithKeepsOther, WithKeepsThis, WithIsLeast and WithContainsBoth state its meaning. |
| InputGenerator.Modifier.Without | src/vtbackend/InputGenerator.h:79-82 | No contract of its own: without(). WithoutDisjoint, WithoutRecombines, WithoutIsSubset and WithoutIsDifference state its meaning. |
| InputGenerator.Modifier.Contains | src/vtbackend/InputGenerator.h:84-87 | No contract of its own: contains(). ContainsHasNoOutsideBits and NoOutsideBitsContains state its meaning. |
| InputGenerator.Modifier.Enable | src/vtbackend/InputGenerator.h:89 | No contract of its own: the mask after enable(key). EnableSetsBit, EnableKeepsOthers and EnableIsWith state its meaning. |
| InputGenerator.Modifier.Disable | src/vtbackend/InputGenerator.h:91 | No contract of its own: the mask after disable(key). DisableClearsBit and DisableKeepsOthers state its meaning. |
| InputGenerator.Not | src/vtbackend/InputGenerator.h:114-117 | No contract of its own: operator!. EmptinessPredicates states its meaning. |
| InputGenerator.Plus | src/vtbackend/InputGenerator.h:124-127 | No contract of its own: Key + Key. PlusIsUnion states its meaning. |
| InputGenerator.Modifier.Value | src/vtbackend/InputGenerator.h:55 | No contract of its own: value(), the mask. |
| InputGenerator.FromKey | src/vtbackend/InputGenerator.h:47 | No contract of its own: the Modifier(Key) constructor. FromKeyHoldsOnlyKey states its meaning. |
| InputGenerator.Less | src/vtbackend/InputGenerator.h:102-105 | No contract of its own: operator<, on the values. ModifierComparisons states its properties. |
| InputGenerator.Equal | src/vtbackend/InputGenerator.h:107-110 | No contract of its own: operator==, on the values. ModifierComparisons states its meaning. |
| InputGenerator.EqualsKey | src/vtbackend/InputGenerator.h:119-122 | No contract of its own: operator==(Modifier, Key). EqualsKeyIsFromKey states its meaning. |
| InputGenerator.FromKeyHoldsOnlyKey | src/vtbackend/InputGenerator.h:47 | Modifier(key) holds that key and no other, and is some() exactly for a real key; Modifier(Key::None) holds nothing. |
| InputGenerator.ModifierComparisons | src/vtbackend/InputGenerator.h:102-110 | operator== holds exactly for equal modifiers, operator< is irreflexive, and it never holds between equal modifiers. |
| InputGenerator.EqualsKeyIsFromKey | src/vtbackend/InputGenerator.h:119-122 | A modifier equals a key exactly when it is the modifier made from that key. |
| InputGenerator.NoOutsideBitsContains | src/vtbackend/InputGenerator.h:84-87 | Conversely, if o has no bit outside the mask, contains(o) holds. |
| InputGenerator.ContainsAbsorbs | src/vtbackend/InputGenerator.h:74-87 | If m contains o, then m.with(o) is m. |
| InputGenerator.AbsorbsContains | src/vtbackend/InputGenerator.h:74-87 | If m.with(o) is m, then m contains o. |
| InputGenerator.WithKeepsOther | src/vtbackend/InputGenerator.h:74-77 | m.with(o) contains o. |
| InputGenerator.WithKeepsThis | src/vtbackend/InputGenerator.h:74-77 | m.with(o) contains m. |
| InputGenerator.WithIsLeast | src/vtbackend/InputGenerator.h:74-77 | Any modifier containing m and o contains m.with(o). |
| InputGenerator.WithContainsBoth | src/vtbackend/InputGenerator.h:74-77 | with() (and so `|=` and `operator|`) is the least modifier containing both operands: the bitwise OR. |
| InputGenerator.WithoutDisjoint | src/vtbackend/InputGenerator.h:79-82 | m.without(o) shares no bit with o. |
| InputGenerator.WithoutRecombines | src/vtbackend/InputGenerator.h:79-82 | m.without(o) together with m's bits in o gives m back. |
| InputGenerator.WithoutIsSubset | src/vtbackend/InputGenerator.h:79-82 | m contains m.without(o). |
| InputGenerator.WithoutIsDifference | src/vtbackend/InputGenerator.h:79-82 | without(o) is `mask & ~o.mask`: disjoint from o, inside m, and together with m's bits in o it is m. |
| InputGenerator.EnableSetsBit | src/vtbackend/InputGenerator.h:89 | enable(k) sets k's bit. |
| InputGenerator.EnableKeepsOthers | src/vtbackend/InputGenerator.h:89 | enable(k) leaves every other bit as it was. |
| InputGenerator.DisableClearsBit | src/vtbackend/InputGenerator.h:91 | disable(k) clears k's bit. |
| InputGenerator.DisableKeepsOthers | src/vtbackend/InputGenerator.h:91 | disable(k) leaves every other bit as it was. |
| InputGenerator.EnableIsWith | src/vtbackend/InputGenerator.h:74-89 | enable(k) is with(Modifier(k)). |
| InputGenerator.EnableDisableSingleBit | src/vtbackend/InputGenerator.h:89-91 | enable(k) sets exactly k's bit and disable(k) clears exactly k's bit, every other bit unchanged. After enable(k) the modifier contains k. |
| InputGenerator.DisableAfterEnable | src/vtbackend/InputGenerator.h:89-91 | disable undoes enable for a key that was not held. |
| InputGenerator.EnableAfterDisable | src/vtbackend/InputGenerator.h:89-91 | enable undoes disable for a key that was held. |
| InputGenerator.EnableDisableInverse | src/vtbackend/InputGenerator.h:89-91 | enable and disable of a key are inverse to each other, in the direction the key's prior state allows. |
| InputGenerator.EmptinessPredicates | src/vtbackend/InputGenerator.h:57-117 | none() iff the value is 0. some() and any() iff it is non-zero. `!m` iff none(). |
| InputGenerator.KeyPredicates | src/vtbackend/InputGenerator.h:59-62 | shift(), alt(), control() and meta() hold exactly when the modifier contains that key. |
| InputGenerator.PlusIsUnion | src/vtbackend/InputGenerator.h:124-127 | Key + Key is the modifier of both keys' bits, containing each. |
| InputGenerator.FourBitsBound | src/vtbackend/InputGenerator.h:38-45 | A mask over the four key bits is at most 15. |
| InputGenerator.MakeVirtualTerminalParam | src/vtbackend/InputGenerator.h:129-133 | The CSI parameter is `1 + value()` in 32-bit unsigned arithmetic. It is exactly 1 + value(), and so at least 1, for every mask but all ones, which wraps to 0. It is always below 2^32. |
| InputGenerator.VirtualTerminalParamRange | src/vtbackend/InputGenerator.h:129-133 | Over the four keys the parameter lies in 1..16, and no modifier gives 1. |
| InputGenerator.VirtualTerminalParamInjective | src/vtbackend/InputGenerator.h:129-133 | Different modifiers give different parameters. |
| InputGenerator.AdvanceChain | src/vtbackend/InputGenerator.h:423-434 | The formatter's four advance steps write the held keys' names in the order Alt, Shift, Control, Meta, separated by commas. |
| InputGenerator.FormatFlagsListsNames | src/vtbackend/InputGenerator.h:418-437 | The formatter's output over four key tests is the comma-joined names in that order, or "None" exactly when no key is held. |
| InputGenerator.FormatModifierListsKeys | src/vtbackend/InputGenerator.h:418-437 | The Modifier formatter lists the held keys as Alt, Shift, Control, Meta, comma-separated. It prints "None" exactly when no key bit is set. |
| InputGenerator.FormatModifier | src/vtbackend/InputGenerator.h:418-437 | No contract of its own: the Modifier formatter. FormatModifierListsKeys states what it prints. |
| InputGenerator.InputGenerator.constructor | src/vtbackend/InputGenerator.h:369-378 | Both key modes start Normal, the pending buffer is empty and the consumed count is 0. |
| InputGenerator.InputGenerator.NormalCursorKeys | src/vtbackend/InputGenerator.h:251 | No contract of its own: normalCursorKeys(). KeyModesComplementary states its meaning. |
| InputGenerator.InputGenerator.ApplicationCursorKeys | src/vtbackend/InputGenerator.h:252 | No contract of its own: applicationCursorKeys(). KeyModesComplementary states its meaning. |
| InputGenerator.InputGenerator.NumericKeypad | src/vtbackend/InputGenerator.h:254 | No contract of its own: numericKeypad(). KeyModesComplementary states its meaning. |
| InputGenerator.InputGenerator.ApplicationKeypad | src/vtbackend/InputGenerator.h:255 | No contract of its own: applicationKeypad(). KeyModesComplementary states its meaning. |
| InputGenerator.InputGenerator.KeyModesComplementary | src/vtbackend/InputGenerator.h:251-255 | normalCursorKeys and applicationCursorKeys are complementary, and so are numericKeypad and applicationKeypad. The application forms mean the Application mode. |
| InputGenerator.InputGenerator.Peek | src/vtbackend/InputGenerator.h:313-317 | peek is the unconsumed suffix of the pending buffer: the consumed prefix followed by it is the buffer. |
| InputGenerator.InputGenerator.Consume | src/vtbackend/InputGenerator.h:319-327 | consume(n) drops exactly n bytes from the front of peek(). When everything has been consumed, the buffer is cleared and the count reset to 0. Otherwise the buffer is kept and the count grows by n. |
| Config.ToLower | src/contour/Config.cpp:276 | crispy::toLower lower-cases each ASCII letter and keeps every other character, length unchanged. |
| Config.ToUpper | src/contour/Config.cpp:655 | crispy::toUpper upper-cases each ASCII letter and keeps every other character, length unchanged. |
| Config.CaseFolding | src/contour/Config.cpp:274-284 | A string and its upper-cased form have the same lower-cased form, and conversely, so the lookups ignore letter case. |
| Config.ToPermission | src/contour/Config.cpp:274-284 | No contract of its own: toPermission. ToPermissionNames and ToPermissionRoundTrip state its meaning. |
| Config.ToPermissionNames | src/contour/Config.cpp:274-284 | toPermission gives Allow, Deny or Ask exactly when the lower-cased value is "allow", "deny" or "ask". It gives none for anything else, and the letter case does not matter. |
| Config.ToPermissionRoundTrip | src/contour/Config.cpp:274-284 | Each permission's name parses back to it. |
| Config.ParseModifierKeyNames | src/contour/Config.cpp:652-665 | parseModifierKey gives a key exactly when the upper-cased string is ALT, CONTROL, SHIFT or META. It gives none otherwise, "none" included, and the letter case does not matter. |
| Config.ParseModifierKeyRoundTrip | src/contour/Config.cpp:652-665 | Each of the four keys parses back from its name. |
| Config.ParseModifierKey | src/contour/Config.cpp:652-665 | No contract of its own: parseModifierKey. ParseModifierKeyNames and ParseModifierKeyRoundTrip state its meaning. |
| Config.ParseKey | src/contour/Config.cpp:530-583 | No contract of its own: parseKey, a case-insensitive table scan. FindKeySound and ParseKeyFollowsTable state its meaning. |
| Config.FindKey | src/contour/Config.cpp:577-581 | No contract of its own: the table loop of parseKey, returning the first match. FindKeySound states its meaning. |
| Config.FindKeySound | src/contour/Config.cpp:575-581 | The table scan returns the key of an entry whose lower-cased name matches. It returns none only when no entry matches. |
| Config.ParseKeyFollowsTable | src/contour/Config.cpp:530-583 | parseKey's result is the key of a table entry equal to the name ignoring letter case, and none means no entry matches. Upper-casing the name does not change the result. |
| Config.VTTypeNamesDistinct | src/contour/Config.cpp:1279-1285 | The ten names in stringToVTType's table are pairwise different. |
| Config.FindVTTypeExact | src/contour/Config.cpp:1286-1289 | Scanning a table that holds a type finds that type exactly for its own name. |
| Config.StringToVTTypeExact | src/contour/Config.cpp:1276-1290 | stringToVTType gives a type exactly for that type's own spelling, matched exactly and case-sensitively. |
| Config.StringToVTTypeNone | src/contour/Config.cpp:1276-1290 | stringToVTType gives none exactly when the string spells none of the ten types. |
| Config.StringToVTType | src/contour/Config.cpp:1276-1290 | No contract of its own: stringToVTType. StringToVTTypeExact and StringToVTTypeNone state its meaning. |
| Config.Clamp | src/contour/Config.cpp:1272 | std::clamp's result lies in [min, max]. It is the value when the value lies inside, min below and max above. |
| Config.SanitizeRange | src/contour/Config.cpp:1266-1274 | sanitizeRange returns true exactly when min <= v <= max, and then leaves v untouched. Otherwise it returns false and v becomes its clamp into [min, max], a different value. |
| Config.SplitOn | src/contour/Config.cpp:681 | crispy::split on `\|`: no piece contains the separator. SplitOnJoin and SplitOnOfJoin tie the pieces back to the string. |
| Config.JoinOn | src/contour/Config.cpp:681 | No contract of its own: the pieces joined with one separator between neighbours, the inverse of SplitOn. |
| Config.SplitFromJoin | src/contour/Config.cpp:681 | The pieces of a split resumed at any position join back to the string. |
| Config.SplitOnJoin | src/contour/Config.cpp:681 | Joining the pieces of a split with the separator gives the string back, so the split loses and adds nothing. |
| Config.JoinSplitFrom | src/contour/Config.cpp:681 | Splitting the join of separator-free pieces after a separator-free prefix gives the pieces back, with the prefix on the first. |
| Config.SplitOnOfJoin | src/contour/Config.cpp:681 | Separator-free pieces come back from the split of their join, unless the only piece is empty. |
| Config.ApplyModeArg | src/contour/Config.cpp:682-718 | No contract of its own: one piece of the mode string. ApplyModeArgSets states its meaning. |
| Config.ApplyModeArgs | src/contour/Config.cpp:680-719 | No contract of its own: the pieces applied in order. UnnamedFlagUnchanged, LastMentionWins and ApplyModeArgsSplit state its meaning. |
| Config.ParseMatchModes | src/contour/Config.cpp:680-719 | The mode string is split on `\|` and every piece is applied in order to empty MatchModes. |
| Config.ParseModeArg | src/contour/Config.cpp:682-718 | One loop iteration: an empty piece or an unknown name changes nothing. `~` before a known name disables the flag, otherwise it is enabled. |
| Config.ApplyModeArgSets | src/contour/Config.cpp:682-718 | A piece that names a flag sets exactly that flag, to off after `~` and to on otherwise. Any other piece leaves the modes unchanged. |
| Config.UnnamedFlagUnchanged | src/contour/Config.cpp:680-719 | A flag no piece names keeps its previous state. |
| Config.LastMentionWins | src/contour/Config.cpp:680-719 | The last piece naming a flag decides it: enabled unless that piece starts with `~`. |
| Config.ApplyModeArgsSplit | src/contour/Config.cpp:680-719 | Applying two lists of pieces in turn is applying their concatenation. |
| Config.AppendOrCreateBinding | src/contour/Config.cpp:752-770 | If some binding matches, the action is appended to the first matching one, every other binding is unchanged and the length stays the same. Otherwise exactly one new binding with just that action is appended at the end. |
| Config.FeatureTag | src/contour/Config.cpp:1206-1215 | No contract of its own: the tag and switch of a feature value. ParseFontFeatureCases states its meaning. |
| Config.ParseFontFeature | src/contour/Config.cpp:1205-1225 | No contract of its own: one feature value, as bytes. ParseFontFeatureCases, ParseFontFeatureCountsBytes and FontFeatureRoundTrip state its meaning. |
| Config.ParseFontFeatureCases | src/contour/Config.cpp:1205-1225 | A feature is accepted exactly when its tag, after an optional leading `+` or `-`, has four bytes. `-` disables it; `+` or no sign enables it. A bare four-byte value is kept as it is. |
| Config.ParseFontFeatureCountsBytes | src/contour/Config.cpp:1218 | The length is the UTF-8 byte count: "éab", three characters in four bytes, is accepted. |
| Config.FontFeatureRoundTrip | src/contour/Config.cpp:1205-1225 | A four-byte feature written with its sign parses back to itself. |
| Config.ParsedFeatures | src/contour/Config.cpp:1196-1227 | The features kept from a list are never more than its entries. |
| Config.LoadFontFeatures | src/contour/Config.cpp:1196-1227 | The features loop appends, in order, each well-formed entry to the stored features and skips the others. |
| Config.ParsedFeaturesWellFormed | src/contour/Config.cpp:1196-1227 | Every kept feature has a four-byte tag, and a list of well-formed entries loses none. |
| Config.HistoryLimitRoundTrip | src/contour/Config.cpp:1639-1647 | -1 means Infinite and only -1 does. A value above -1 is kept, and one below -1 becomes 0 lines. Writing a limit and reading it back gives the limit. |
| Config.HistoryLimit | src/contour/Config.cpp:1639-1647 | No contract of its own: the history limit of a line count. HistoryLimitRoundTrip states its meaning. |
| Config.BellSettingCases | src/contour/Config.cpp:1769-1778 | An empty value keeps the previous bell. "off" and "default" are kept. Any other value becomes "file:" followed by exactly that value. |
| Config.BellSetting | src/contour/Config.cpp:1769-1778 | No contract of its own: the bell value. BellSettingCases states its meaning. |
| Config.PtyBufferSizeFloor | src/contour/Config.cpp:2038-2045 | The pty buffer size is at least 256 KiB. A large-enough value is kept, a smaller one becomes 256 KiB, and applying the floor twice changes nothing. |
| Config.PtyBufferSize | src/contour/Config.cpp:2038-2045 | No contract of its own: the pty buffer size floor. PtyBufferSizeFloor states its meaning. |
| Images.Fill | src/vtbackend/Image.cpp:109-126 | n pixels of the default colour are 4n bytes. |
| Images.AvailableWidth | src/vtbackend/Image.cpp:74-75 | No contract of its own: the image columns left in the cell, at most the cell width. RowInImage and TileRowRegion state its use. |
| Images.AvailableHeight | src/vtbackend/Image.cpp:76-77 | No contract of its own: the image rows left in the cell, at most the cell height. TileRowRegion and TileBottom state its use. |
| Images.FillIsColor | src/vtbackend/Image.cpp:109-126 | Every byte of a fill is the matching channel of the default colour, in the order red, green, blue, alpha. |
| Images.RowInImage | src/vtbackend/Image.cpp:102-107 | A copied row reads only bytes inside the image: its start offset plus availableWidth * 4 is within the data. |
| Images.ImageRow | src/vtbackend/Image.cpp:102-107 | The copied part of a row has availableWidth * 4 bytes. |
| Images.TileRow | src/vtbackend/Image.cpp:100-117 | One row of the tile has exactly cellWidth * 4 bytes. |
| Images.CellArea | src/vtbackend/Image.cpp:73-126 | The covered rows and the bottom fill together make exactly cellSize.area() * 4 bytes. |
| Images.TileLengthIsCellArea | src/vtbackend/Image.cpp:73 | The tile has exactly cellSize.area() * 4 bytes. |
| Images.Tile | src/vtbackend/Image.cpp:63-129 | No contract of its own: the tile fragment fills in, row by row. TileLengthIsCellArea, TileRowRegion and TileBottom state its meaning, and Fragment's result equals it. |
| Images.TileRowRegion | src/vtbackend/Image.cpp:100-117 | For each row y below availableHeight, the first availableWidth * 4 bytes of tile row y are the image bytes starting at ((line * cellHeight + y) * width + column * cellWidth) * 4. The remaining pixels of the row hold the default colour. |
| Images.TileBottom | src/vtbackend/Image.cpp:119-126 | Every pixel from availableHeight * cellWidth to the end of the tile holds the default colour. |
| Images.Fragment | src/vtbackend/Image.cpp:63-129 | fragment returns a fresh buffer holding exactly the tile: copied rows padded on the right, then bottom padding. For the cells modelled the write cursor covers the whole buffer exactly once. |
| Images.CopyRows | src/vtbackend/Image.cpp:100-117 | The row loop writes exactly the covered rows from the start of the buffer. It stops at availableHeight * cellWidth * 4. |
| Images.CopyRow | src/vtbackend/Image.cpp:102-116 | One row pass appends the copied image bytes and then the right padding at the write position, and advances it by their length. |
| Images.CopyBytes | src/vtbackend/Image.cpp:104-106 | std::copy writes the source range at the write position and keeps what was written before it. |
| Images.FillPixels | src/vtbackend/Image.cpp:109-126 | Each fill loop writes n pixels of the default colour at the write position and keeps what was written before it. |
| Images.ImagePool.constructor | src/vtbackend/Image.cpp:54-61 | The pool starts at the given next id, with no id handed out. |
| Images.ImagePool.Create | src/vtbackend/Image.cpp:131-137 | create gives the new image the current next id, never handed out before, and increments the counter by exactly 1. |
| Images.CreateTwice | src/vtbackend/Image.cpp:131-137 | Two images created one after the other get consecutive, distinct ids. |
| TerminalView.Repeat | src/terminal_view/TextRenderer.cpp:92-96 | n cluster entries equal to the same offset. |
| TerminalView.AppendCell | src/terminal_view/TextRenderer.cpp:90-98 | A run extended by a cell holds that cell's codepoints after the old ones, each tagged with the cell's index. |
| TerminalView.ClustersShape | src/terminal_view/TextRenderer.cpp:79-98 | A run's clusters have one entry per codepoint, never decrease, and each is below the number of cells. |
| TerminalView.CodepointsOfNonBlank | src/terminal_view/TextRenderer.cpp:106-116 | A run whose first cell has a codepoint has codepoints. |
| TerminalView.TextRenderer.constructor | src/terminal_view/TextRenderer.cpp:100-130 | The builder starts Empty, with no codepoints, clusters or rendered segments. |
| TerminalView.TextRenderer.ClusterInvariant | src/terminal_view/TextRenderer.cpp:79-98 | In every reachable state \|clusters\| == \|codepoints\|, clusters are non-decreasing, and every cluster is below clusterOffset. |
| TerminalView.TextRenderer.FillingHasCodepoints | src/terminal_view/TextRenderer.cpp:106-127 | While Filling, the pending segment has codepoints, so a flush from Filling always renders it. |
| TerminalView.TextRenderer.Reset | src/terminal_view/TextRenderer.cpp:79-88 | reset sets row, start column and attributes. It empties codepoints and clusters and sets clusterOffset to 0. |
| TerminalView.TextRenderer.Extend | src/terminal_view/TextRenderer.cpp:90-98 | extend appends the cell's codepoints and as many cluster entries, each equal to the old clusterOffset, then increments clusterOffset by 1. |
| TerminalView.TextRenderer.FlushPendingSegments | src/terminal_view/TextRenderer.cpp:132-135 | The pending segment is rendered unless it holds no codepoints, in which case nothing is rendered. |
| TerminalView.TextRenderer.ResetAndExtend | src/terminal_view/TextRenderer.cpp:110-111 | reset at the cell followed by extend gives a segment of exactly that cell, in cluster 0. |
| TerminalView.TextRenderer.FillingExtended | src/terminal_view/TextRenderer.cpp:115-116 | Extending a Filling segment with a matching non-blank cell keeps it made of non-blank cells with the segment's attributes. |
| TerminalView.TextRenderer.Schedule | src/terminal_view/TextRenderer.cpp:100-130 | In Empty, a blank cell (empty or starting with a space) changes nothing; any other cell starts a Filling segment at that cell. In Filling, a non-blank cell on the same row with equal attributes only extends the segment. Any other cell renders the segment, then goes to Empty on a blank cell or restarts the segment at the cell. The builder's invariant is kept. |
| TerminalView.TextRenderer.Execute | src/terminal_view/TextRenderer.cpp:257-263 | execute leaves the state at Empty. |
| TerminalView.ScheduleTwo | src/terminal_view/TextRenderer.cpp:100-130 | Two adjacent non-blank cells with equal attributes form one segment holding both cells' codepoints, in clusters 0 and 1, with nothing rendered. |
| Rasterizer.TextClusterGroup.constructor | src/vtrasterizer/TextRenderer.h:171-191 | A new group has its pen at the origin, the Invalid style, no codepoints or clusters and no cells. |
| Rasterizer.TextClusterGroup.ResetAndMovePenForward | src/vtrasterizer/TextRenderer.h:192-198 | Codepoints and clusters become empty and cellCount 0. The pen's x grows by the increment. The pen's y, the style and the colour are unchanged. |
| Rasterizer.ResetTwice | src/vtrasterizer/TextRenderer.h:192-198 | Two resets move the pen by the sum of the increments. |
| Rasterizer.TextRenderer.constructor | src/vtrasterizer/TextRenderer.h:151-154 | Direct mapping starts disabled with an empty tile table. |
| Rasterizer.TextRenderer.IsGlyphDirectMapped | src/vtrasterizer/TextRenderer.h:156-162 | A direct-mapped glyph implies that direct mapping is enabled and the glyph is of the regular font. Its index is also inside the table (read only in bounds) with a non-zero tile. |
| Rasterizer.TextRenderer.DirectMappedWhenTiled | src/vtrasterizer/TextRenderer.h:156-162 | Conversely, a regular-font glyph with a non-zero tile in the enabled table is direct-mapped. |
| Rasterizer.TextRenderer.NotDirectMapped | src/vtrasterizer/TextRenderer.h:156-162 | With direct mapping off, or for a glyph of another font, nothing is direct-mapped. |

## Left out

- The kernel is not modelled. That covers `select`, `epoll_create1`, `epoll_ctl`, `epoll_wait`, `eventfd`, `read`, `write` and `close`. Their results are inputs to the methods and their effects are fields.
- The thread safety of `wakeup` is not modelled: it is a claim about concurrency.
- ReadSelector.PosixReadSelector.WantRead: requires a descriptor below FD_SETSIZE. FD_SET on any other descriptor is undefined behaviour.
- ReadSelector.PosixReadSelector.WaitOne:
  - requires a non-empty watched list, which the source asserts;
  - requires a ready set drawn from the read set, which is what `::select` guarantees;
  - after a failed `::select` the read set is kept as it was, though POSIX leaves it unspecified;
  - `_writer` and `_except` are always empty and are not modelled;
  - the FD_ISSET test on the break pipe (read_selector.h:80) is undefined for the read end -1 and is modelled as false, through BreakPipeSignalled; the pipe drain's errno is then not modelled (see Findings);
  - a timeout outcome is admitted only when a non-negative timeout was given: ::select with a null timeval does not time out, and with a negative one it fails with EINVAL.
- ReadSelector.EpollReadSelector.WaitOne: a timeout outcome is admitted only for a non-negative converted timeout, since epoll_wait with a negative one does not time out. It requires that some call in the script is not interrupted by EINTR. If every call were interrupted, the source's retry loop would never return, and that outcome is not modelled.
- ReadSelector.EpollReadSelector.WantRead: requires a descriptor other than the selector's own two. What epoll_ctl does with those is not modelled: EEXIST for the eventfd, EINVAL for the epoll descriptor.
- ReadSelector.EpollReadSelector.CancelRead: requires a descriptor other than the selector's own two. Deregistering the eventfd would lose every later wakeup, and that is not modelled.
- ReadSelector.EpollReadSelector.Wakeup: the eventfd counter is unbounded. Its saturation near 2^64 is not modelled.
- The compile-time choice of backend and the epoll constructor's `Require` failures are not modelled; the constructor requires two valid descriptors.
- `select()` in Functions.h is not modelled: only its declaration is in the header. The selector comparison it is built on is modelled.
- Functions.Serialize: parameters are non-negative integers written in decimal. The source's variadic operator() formats any fmt argument, and negative numbers or strings (which may contain `;`, breaking SerializeRoundTrip) are not modelled.
- The fmt formatters of Functions.h are not modelled: they only format for logging.
- The contents of the function table (`allFunctionsArray`) are not modelled. The table is a constructor argument, and DECSC is spelled out for IdOfDecsc.
- src/vtbackend/VTType.h is not part of this model. The conformance levels are ordered as the enumerators are listed in stringToVTType's table, and `<=` on VTType is assumed to compare in that order.
- `crispy::sort` is not part of this model. It is modelled as a sort by compare, here an insertion sort whose arrangement is written back into the array.
- `std::partition` is modelled as one swap-based pass. Its result satisfies the standard's guarantee, but any other arrangement a library might produce is not modelled.
- The `Modifier` mutators `enable`, `disable` and `|=` are modelled as functions returning the updated modifier, not as updates in place of `_mask`.
- The `InputGenerator::generate*` methods and the mode setters are not modelled: only their declarations are in the header.
- InputGenerator.InputGenerator.Consume: requires 0 <= n <= |peek()|. The source does not check it, and a larger n would leave peek's view past the buffer's end.
- Config.ParseMatchModes: only the string part is modelled. The YAML checks (a missing node gives empty modes, a non-scalar node gives none) and the used-key bookkeeping are not modelled.
- MatchModes (src/vtbackend/InputBinding.h) is not part of this model. It is modelled as a map from flag to required state.
- `match` in appendOrCreateBinding is not part of this model. It is a predicate parameter.
- `parseModifier` is not modelled: it walks YAML sequence nodes. `parseKeyOrChar` is not modelled: it decodes through QString.
- The YAML, filesystem, environment and logging plumbing of Config.cpp is not modelled, and neither is any floating-point setting.
- The case conversions treat only ASCII letters, which is what crispy::toLower and crispy::toUpper do byte by byte. Strings other than font features are sequences of characters. For ASCII names, comparing characters is the same as comparing bytes.
- Font-feature values are modelled as the UTF-8 bytes of the YAML scalar, so the four-byte test is the source's `size()`.
- Images.Fragment: requires a cell whose top-left corner lies inside the image, so that availableWidth and availableHeight are not negative, and an image with 4 bytes per pixel. For other cells the source copies a negative count or writes past the buffer, and that is not modelled.
- The `int` arithmetic of fragment's offsets is modelled over unbounded integers, so its overflow is not modelled. The image format conversion (still a TODO in the source) and the alignment and resize hints are not modelled.
- Images.ImagePool.Create: the 32-bit ImageId is unbounded here, so its wrap-around is not modelled. `ImagePool::link`, `findImageByName`, `unlink` and rasterize are not modelled: they rely on a hash table not shown.
- The glyph rendering behind flushPendingSegments is recorded as a ghost log of segments. Colours, glyph positions, shader and OpenGL calls are not modelled.
- The cell's `empty()` is modelled as having no codepoints. Row and column are natural numbers.
- The terminal view's TextRenderer constructor takes the initial attributes as a parameter. Fonts, caches and projection are not modelled.
- The rasterizer's TextStyle, RGBColor, font keys and glyph keys are minimal stand-ins. The pen's `int` x is unbounded, so its overflow is not modelled.
- Shaping, glyph caches, the texture atlas and box drawing are not modelled.

## Findings

| source | as written | input that shows it | evidently intended | confidence | as-written member | corrected member |
|---|---|---|---|---|---|---|
| src/crispy/read_selector.h:80 | After every successful ::select, wait_one runs FD_ISSET on `_breakPipe[0]`, which is always -1. FD_ISSET is undefined for a negative descriptor, and a fortified build aborts on it. | any wait_one whose ::select reports a descriptor ready | test the break pipe only while it is open | not executed; undefined behaviour, so the outcome depends on the C library | ReadSelector.PosixReadSelector.BreakPipeTestUndefined | ReadSelector.BreakPipeSignalled |
| src/crispy/read_selector.h:75 | ::select is handed the `_reader` member itself, and overwrites it with the ready set, so later calls watch only what was ready last time, or nothing after a timeout. | watch 5 and 9; a wait on which only 5 is ready; then a wait that times out | select on a copy of the read set, so every wait watches every wanted descriptor | not executed | ReadSelector.ReadSetShrinks | ReadSelector.PosixReadSelector.WaitOneOnCopy |
| src/vtbackend/Functions.h:792-795 | std::hash returns id(), commented as perfect hashing, but id() maps different definitions to one value. | ESC with intermediate `/` and final `@`, and ESC with final `A`: both 0x401 | a hash that separates every pair operator== separates | not executed; a collision costs lookup time, not correctness | Functions.IdCollision | Functions.PackedKeyInjective |

WaitOne keeps the source's behaviour of the second row, since the rest of the model describes the program as written. WaitOneOnCopy and ReadSetKept give the corrected behaviour beside it, and BreakPipeSignalled is the test WaitOne and WaitOneOnCopy both use.
