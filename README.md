# wcsm, modelled in Dafny

wcsm ("web change stop motion") watches a directory tree. On each change outside its
output directory, and at most once a second, it fetches every target page, inlines
the page's images, stylesheets and same-host scripts, and stores the result as
`<output>/<pathfromuri(uri)>/<seconds>.html`. It skips the write when the new page has
the same md5 as the target's most recent snapshot. The most recent snapshot is the file
whose name sorts greatest.

This project models the core of `wcsm.py`, one module per component:

- `Env` holds the collaborators the core calls but does not implement. It has the parsed
  URL, the HTML element, the HTTP reply and a `Lib` record of opaque library functions:
  `urlparse`, `urljoin`, md5, `imghdr.what`, base64, the BeautifulSoup parser and
  `str(soup)`. The network is an oracle `Net` from a URL to its reply, passed to each call.
- `PathName` models `pathfromuri`.
- `PosixPath` models POSIX `os.path.split`.
- `ChangeFilter` models the ancestor walk of `on_any_event`.
- `Debouncer` models the one-second gate.
- `Inliner` models `inline` and `getexternalresource`. The page is an `array` of elements
  in document order, and three in-place passes rewrite that array.
- `LexOrder` models Python's string order and the greatest name of a directory.
  `sort()[-1]` uses this.
- `SnapshotStore` models the output tree as a `Disk` object holding a map from directory
  name to a map from file name to content. It also holds the store decision and the
  snapshot names.
- `Wcsm` holds the `WebGetter` and `EventHandler` classes, `Startup`, and the grab cycle's
  specification `GrabAll`.

The clock is passed in as two parameters: whole milliseconds for the gate and whole
seconds for the file name.

## Behaviour the code has

The model follows what `wcsm.py` does, including these behaviours:

- A failed fetch or inlining during a cycle is not handled per target. The exception
  leaves `grab` (wcsm.py:97-126), so the remaining targets are skipped and the writes
  already made stay. `GrabAll` stops at the first error and returns it.
- BeautifulSoup's `hasattr(tag, 'src')` is always true, so `inline` indexes the attribute
  unconditionally (wcsm.py:149-150, 165-166, 182-183). An `img` or `script` without `src`
  raises `KeyError`, and so does a stylesheet link without `href`. Every inline `<script>`
  block is such a script.
- `getexternalresource` returns `None` for any status other than 200 or 304
  (wcsm.py:195-200). The code after the call then raises. An image type that
  `imghdr.what` does not recognise also raises, when `None` is concatenated to a string.
  Each of these is an `InlineError`.
- `grab` inlines and stores the page whatever its own status. Only the startup loop
  (wcsm.py:71-75) looks at the page status.
- `on_any_event` compares whole strings, not path segments (wcsm.py:213-218). It compares
  each ancestor at least as long as the output directory with that directory.
  `ChangeFilter.IgnoredIff` proves that this means "the path lies inside the output
  directory" when the output directory has no trailing `/`. So `/out2/x` is not
  filtered by `/out`.
- The walk starts at the parent of the changed path. An event on the output directory
  itself therefore triggers a grab (`ChangeFilter.OutputDirEventTriggers`).
- The walk never ends when it reaches an all-slash head (`//`) that is at least as long
  as the output directory and differs from it. The model returns `Spin` for that case.
- `pathfromuri` maps distinct targets to one directory name when their paths differ only
  in `/` versus `_`, or their queries only in `&` versus `-` (wcsm.py:81-94). Two such
  targets with different pages overwrite each other's snapshot in each cycle. Each cycle
  then finds a most recent file unlike the first target's page and stores again, so
  deduplication never takes effect for them (`Wcsm.CollisionStoresAgain`).
- At startup, a target whose status is not 200 aborts construction (wcsm.py:71-75). The
  exception is a `NameError`: `RunTimeError` is an undefined name, and Python looks it
  up before evaluating the message. So the string-plus-int concatenation in the message
  is never reached. The model returns `Failure(uri)`. The directories created before the
  check stay.

## Model

| member | source | states |
|---|---|---|
| `Wcsm.Distinct` | wcsm.py:56-58 | the target list has no duplicates and exactly the members of the configured list |
| `Wcsm.DirName` | wcsm.py:63 | a target's directory is `pathfromuri` of its parsed URI; what that name is, is stated by `PathName.PathFromUri` |
| `Wcsm.CreateDirs` | wcsm.py:62-66 | afterwards every target's directory exists; existing directories are untouched and new ones are empty; no other directory appears |
| `Wcsm.WebGetter.constructor` | wcsm.py:49-66 | timer fields start at 0; the target list is distinct with the same members; every target's directory exists and nothing else changes |
| `Wcsm.WebGetter.Reachable` | wcsm.py:71-75 | no offending target iff every target answers 200; otherwise the first target whose status is not 200 |
| `Wcsm.Startup` | wcsm.py:49-75 | fails iff some configured target does not answer 200, naming one such target; on success a fresh getter with distinct targets; directories created either way |
| `PathName.Replace` | wcsm.py:87 | same length; each occurrence of the character is replaced and every other character is kept; the replaced character no longer occurs |
| `PathName.PathFromUri` | wcsm.py:81-94 | netloc first; then the path with `/` made `_` and containing no `/`; then `+` and the query with `&` made `-` and containing no `&` when there is a query; the length is the sum of the parts |
| `PathName.Collisions` | wcsm.py:81-94 | distinct targets can share a directory (`/x/y` and `/x_y`, `p=1&q=2` and `p=1-q=2`) |
| `PosixPath.HeadLength` | wcsm.py:213 | the position after the last `/`: a slash precedes it and none follows |
| `PosixPath.RStripSlashes` | wcsm.py:213 | a prefix; only slashes removed; the result does not end in `/` |
| `PosixPath.Split` | wcsm.py:213-216 | the tail is what follows the last `/`; the head is the path up to the last `/`, with trailing slashes removed unless that part is all slashes: a prefix of it, differing only by slashes, kept whole when all slashes and otherwise not ending in `/` |
| `ChangeFilter.Walk` | wcsm.py:214-218 | the loop from one ancestor on: it drops the event only on an ancestor that has the output directory as a prefix, and it spins only on one at least as long as the output directory |
| `ChangeFilter.EventVerdict` | wcsm.py:213-218 | the loop starts at the parent of the changed path; a dropped event's path has the output directory as a prefix |
| `ChangeFilter.IgnoredIff` | wcsm.py:211-218 | for an output directory without a trailing `/`, an event is dropped iff its path starts with the output directory followed by `/` |
| `ChangeFilter.TriggerIff` | wcsm.py:211-220 | for an absolute output directory other than `/` and a path not starting with `//`, grab runs iff the path is not inside the output directory |
| `ChangeFilter.SpinNeedsDoubleSlash` | wcsm.py:213-216 | with an output directory of two or more characters, the walk can spin only on a path starting with `//` |
| `ChangeFilter.SnapshotWriteIgnored` | wcsm.py:211-218 | writing `<out>/<dir>/<name>` never triggers another grab |
| `ChangeFilter.OutputDirEventTriggers` | wcsm.py:213-220 | an event on the output directory itself is not dropped: its parent is shorter than the output directory |
| `ChangeFilter.SpinExample` | wcsm.py:213-216 | with output `/a`, the event `//x` never leaves the loop |
| `Wcsm.EventHandler.Filter` | wcsm.py:212-218 | the loop's outcome is the one `EventVerdict` defines: ignore, trigger or spin |
| `Wcsm.EventHandler.constructor` | wcsm.py:205-208 | keeps the getter and the output directory it is given |
| `Wcsm.EventHandler.OnAnyEvent` | wcsm.py:211-220 | an event that is not a trigger changes nothing; a trigger runs `Grab` with its whole effect |
| `Debouncer.Accepts` | wcsm.py:132 | the gate's test: more than 1000 ms since the last accepted trigger; what follows from it is stated by `AcceptedSpaced` and `WithinWindowRefused` |
| `Debouncer.AcceptedTimes` | wcsm.py:129-136 | the gate over a sequence of triggers passes no more triggers than it is given, and only times it was given |
| `Debouncer.AcceptedSpaced` | wcsm.py:129-136 | any two triggers the gate accepts are more than 1000 ms apart, and the first is more than 1000 ms after the initial time |
| `Debouncer.WithinWindowRefused` | wcsm.py:129-136 | after an accepted trigger at t, every later trigger within 1000 ms of t is refused, however many come |
| `Debouncer.ThreeTriggers` | wcsm.py:129-136 | triggers at 2000, 2500 and 3001 ms are accepted, refused and accepted |
| `Wcsm.WebGetter.Debounce` | wcsm.py:129-136 | returns true iff now minus the last accepted time exceeds 1000; the last accepted time becomes now on true and is kept on false |
| `Wcsm.WebGetter.Grab` | wcsm.py:97-126 | a refused trigger changes nothing on disk; an accepted one leaves the tree and error that `GrabAll` defines, under one `<seconds>.html` name for every target |
| `Wcsm.WebGetter.StoreTarget` | wcsm.py:100-126 | one target: inline failure or missing directory is an error with the disk unchanged; otherwise the directory becomes `Consider` of it |
| `Wcsm.StoreOne` | wcsm.py:100-126 | one target's step fails exactly when inlining its page raises or its directory is missing, names the target when inlining raised, and creates no directory |
| `Wcsm.GrabAll` | wcsm.py:97-126 | a cycle over the targets in order: it creates or removes no directory, and an inlining error it stops at names one of the targets |
| `Wcsm.GrabWritesOnlySnapshot` | wcsm.py:99-126 | a cycle creates no directory, changes only its targets' directories, adds no file but the cycle's name, and keeps every other file's content |
| `Wcsm.StoreOneWritesOnly` | wcsm.py:100-126 | one target's step changes only that target's directory, adds no file but the cycle's name, and keeps every other file |
| `Wcsm.GrabStopsAtError` | wcsm.py:100-126 | after an error, later targets are not processed |
| `Wcsm.GrabAllStores` | wcsm.py:100-126 | in a cycle without error over targets with distinct directories, each target's directory ends as considering its own page under the cycle's name makes it |
| `Wcsm.RegrabStoresNothing` | wcsm.py:97-126 | for targets with distinct directories, when the first cycle's name sorts after every file in them, a second cycle over the same pages under any name leaves the tree as the first left it and ends with the same error, if any |
| `Wcsm.CollisionStoresAgain` | wcsm.py:81-126 | two targets sharing a directory with pages of different hashes: the second cycle over the same pages adds a file the first did not have |
| `SnapshotStore.ShouldWrite` | wcsm.py:109-119 | write iff no file in the directory is both greatest by name and of the same hash as the new page (so always for an empty directory) |
| `SnapshotStore.Consider` | wcsm.py:106-126 | an empty directory receives the snapshot; no file disappears; only the file `name` may be added or overwritten; unless `name` ends up holding the new content, the directory is unchanged |
| `SnapshotStore.StoredOnce` | wcsm.py:106-126 | a snapshot stored under a name sorting after all others is not stored again for identical content |
| `SnapshotStore.RerunStoresNothing` | wcsm.py:99-126 | with timestamps of one width, storing at t1 and reconsidering the same content at t2 stores nothing more |
| `SnapshotStore.LaterNameSortsLast` | wcsm.py:99 | a later timestamp of the same width gives a name that sorts no earlier |
| `SnapshotStore.DecimalOrder` | wcsm.py:99 | among decimal strings of one width, string order is numeric order |
| `SnapshotStore.Decimal` | wcsm.py:99 | `str(n)`: a non-empty string of digits with no leading zero unless n is 0, whose decimal value is n |
| `SnapshotStore.DecimalOfValue` | wcsm.py:99 | every digit string without a leading zero is what `Decimal` gives for its value, so `Decimal` is a bijection onto such strings |
| `SnapshotStore.SnapshotName` | wcsm.py:99 | the name ends in `.html` and what precedes it is digits whose value is the clock's whole seconds |
| `SnapshotStore.Disk.MakeDirs` | wcsm.py:65-66 | adds an empty directory and changes nothing else |
| `SnapshotStore.Disk.Write` | wcsm.py:123-126 | creates or overwrites one file and changes nothing else |
| `LexOrder.Greatest` | wcsm.py:111-112 | the name `sort()[-1]` picks: in the set and not below any member |
| `LexOrder.GreatestExists` | wcsm.py:111-112 | every non-empty set of names has a greatest one |
| `LexOrder.GreatestUnique` | wcsm.py:111-112 | the greatest name is unique |
| `LexOrder.GreatestIsTheOne` | wcsm.py:111-112 | any name that is greatest in the set is the one `Greatest` denotes |
| `LexOrder.GreatestOfInsert` | wcsm.py:111-112 | adding a name that sorts after all others makes it the greatest |
| `LexOrder.Trichotomy` | wcsm.py:111 | Python's string order is total |
| `LexOrder.Transitive` | wcsm.py:111 | Python's string order is transitive |
| `Inliner.GetExternalResource` | wcsm.py:195-200 | data iff the resolved URL answers 200 or 304, and then exactly its body |
| `Inliner.ImageStep` | wcsm.py:148-160 | an image's rewrite raises only for a missing `src`, a failed fetch or an unknown type; on success only the value of `src` may change |
| `Inliner.StylesheetStep` | wcsm.py:164-174 | a link's rewrite raises only for a missing `href` or a failed fetch; on success the element is a `style` without `rel` or `href` |
| `Inliner.ScriptStep` | wcsm.py:179-190 | a script's rewrite raises only for a missing `src` or a failed fetch; on success the script is unchanged or has lost exactly its `src` |
| `Inliner.Rewrite` | wcsm.py:147-190 | only an image, a stylesheet link or a script can raise; only a stylesheet link changes its tag, to `style` |
| `Inliner.PassResult` | wcsm.py:147-190 | one pass in document order, stopping at the first element that raises; on success no element is added or removed |
| `Inliner.InlineSpec` | wcsm.py:145-192 | the three passes in order; on success no element is added or removed |
| `Inliner.ImageRule` | wcsm.py:147-160 | an image without `src` raises; one with a `data:` scheme is untouched; any other succeeds iff fetch and type sniffing succeed, and then only its `src` changes, to `data:image/<type>;base64,<payload>` |
| `Inliner.StylesheetRule` | wcsm.py:163-174 | a stylesheet link without `href` raises; otherwise it succeeds iff the fetch does, becoming `style` whose attributes are the link's less `rel` and `href` plus `type="text/css"`, the fetched text as body and its other attribute values kept |
| `Inliner.ScriptRule` | wcsm.py:179-190 | a script without `src` raises; a cross-host script is untouched; a same-host or host-less one succeeds iff the fetch does, losing `src` and taking the fetched text as body |
| `Inliner.ChainIsRewrite` | wcsm.py:147-190 | the three passes in sequence give each element the rewrite of its own kind |
| `Inliner.PassElementwise` | wcsm.py:147-190 | a pass succeeds iff every element's rewrite does; then it keeps the length and rewrites each element in place |
| `Inliner.FailurePersists` | wcsm.py:147-190 | a pass that raised on a prefix raises with the same error on the whole page |
| `Inliner.InlineElementwise` | wcsm.py:139-192 | inlining succeeds iff every element's own rule does; then no element is added or removed and each is rewritten in place |
| `Inliner.RunPass` | wcsm.py:147-190 | the in-place loop leaves the array that `PassResult` defines, or reports its error |
| `Inliner.Inline` | wcsm.py:139-192 | the result is the one `InlineSpec` defines for the parsed page |

## Left out

- Command-line parsing, the watchdog observer, its regex matching, the sleep loop and
  interrupt handling: these are process plumbing and a foreign library. Events arrive as
  paths.
- The network, URL parsing and joining, md5, image sniffing, base64, HTML parsing and
  serialisation: these are opaque functions in `Env.Lib`. Transport failures of urllib3
  (DNS, connection) are not modelled. Every request yields a status and a body.
- Inliner.ImageRule: base64 is opaque, so the round trip "decoding the payload gives the
  fetched bytes" is not stated.
- `SnapshotStore.Disk`: a directory is a flat map from file name to content. `normpath`
  and nested directories (a query containing `/` gives a nested name) are not modelled.
  Neither are `listdir` entries that are subdirectories, nor write errors.
- The clock: `time.time()` and the float formatting behind `str(time.time()).split('.')`
  are parameters (whole milliseconds and whole seconds).
- The HTML tree is an element list in document order. Nesting, and `str(soup)`'s output
  format, are not modelled.
- Wcsm.Distinct: `list(set(...))` has no defined order, so the model fixes one order. Only
  membership and distinctness are stated.
- `op.abspath` (wcsm.py:61, 207) is not modelled: it resolves against the process's
  working directory. `EventHandler` stores the output directory it is given. The
  lemmas about the filter take from `abspath` only what they need: `IsOutputDir` (no
  trailing `/`) for `IgnoredIff`, and additionally `dir[0] == '/'` for `TriggerIff`.
- Wcsm.EventHandler.OnAnyEvent: in the `Spin` case the source's handler never returns.
  The model returns without grabbing.
- `setup.py` is packaging metadata and is not part of this model.
