# Job manager of workmate-zipper, in Dafny

workmate-zipper is a small service that takes bundling jobs. A client creates a task, adds up to three
URLs of PDF or JPEG files, and runs it. The manager downloads every item into a staging
directory and packs the files it got into one zip archive. A fixed number of run slots caps
how many tasks download at once. This project models that job manager and proves what it
promises:

- the item cap and the suffix rule of `AddItem`;
- admission control in `Run`: a task that cannot get a slot is rolled back so it can be retried;
- the order and count of fetched items while a task is processed, and the terminal state it ends in;
- the string rules that turn an item URL into a safe local file name;
- the size ceiling on a download;
- the hex form of task identifiers.

The modules are:

- `Wrappers`: `Option` and `Result`.
- `Text`: the Go string functions the manager relies on, restated as functions:
  - `strings.TrimSpace`, `strings.ToLower` (ASCII letters), `strings.HasSuffix`,
    `strings.ReplaceAll` (leftmost, non-overlapping), `strings.IndexByte` and `strings.Join`;
  - the `%d` verb.
- `Naming`:
  - `isAllowed`;
  - `filepath.Base` (Unix separator);
  - `safeName`;
  - the local file name `download` derives (empty name becomes `file`, the extension is appended again);
  - `filepath.Join` for one path element;
  - the hex encoding of `newID`.
- `Fetch`: `download` as a function of what the HTTP client reports and of whether the
  staged file could be written:
  - status check;
  - `io.LimitReader(limit + 1)` and the "too large" check;
  - the local path.
- `Pipeline`: what `processTask` computes, as functions over the fetch outcomes, with the
  lemmas about order, partition and the terminal status.
- `TaskManager`: the classes `Task` and `Manager`:
  - the task map, the slot counter with the set of tasks holding a slot, and the per-task fields;
  - `Create`, `AddItem`, `Run` and `processTask` as methods with `modifies` frames, the fetch
    loop with its invariants, and `Execute` (the goroutine `Run` starts);
  - `Status` as a method that changes nothing and returns a copy, and `get` as a function.
- `Scenarios`: short client sequences that use only the manager's contracts. They add
  items, run twice, hit the item cap, are refused as busy and then retried, and finish a task fully.

Where the code differs from the documented behaviour of the service, the model follows the code:

- `safeName` tests for an empty, `.` or `..` result before it cuts at `?`, so it can return `.`
  (`Naming.SafeNameCanReturnDot`). For an accepted URL, `download` makes the file name end in
  the URL's extension, so the name it writes is never `.` or `..` (`Naming.LocalName`).
- Any HTTP status other than 200 fails an item, not only statuses outside 2xx.
- `Run` leaves an admitted task's status at `queued` until processing starts. `processTask`
  then sets `running`.

## Model

| member | source | states |
|---|---|---|
| TaskManager.Task.constructor | internal/task/manager.go:38-48 | a new task has no items, is unstarted and queued, has no error, no result and no progress, and satisfies the task invariant |
| TaskManager.Manager.constructor | internal/task/manager.go:60-71 | `NewManager` starts with no tasks and no slot taken, has `parallel` slots, the `tmp` and `results` directories and a 25 MB ceiling |
| TaskManager.Task.Snap | internal/task/manager.go:147 | the copy `Status` returns of a valid task has `Added` equal to the item count, at most 3 items, `Done` between 0 and `Added`, the queued status while unstarted, and a result path exactly when done |
| TaskManager.Manager.Get | internal/task/manager.go:151-155 | `get` returns a task exactly when the id is registered, and then the registered task itself |
| TaskManager.Message | internal/task/manager.go:20-27 | every error text is non-empty; the bad-url error ends with the parser's message, as the `%w` wrap at line 99 does |
| TaskManager.Manager.Create | internal/task/manager.go:73-80 | the task is fresh, queued and empty, and is registered under the hex text of the 16 random bytes; no other entry changes |
| TaskManager.Manager.AddItem | internal/task/manager.go:82-104 | unknown id gives not found; a started, running or done task gives already started; three items give too many items; a refused suffix gives unsupported type; a URL that does not parse gives bad url; each error changes nothing; success happens exactly when none of these apply, appends the URL at the end, keeps earlier items, sets `Added == len(Items)`, returns the new count, and leaves the limit at 3; the invariant keeps every task at most 3 items, all with allowed suffixes |
| TaskManager.Manager.Run | internal/task/manager.go:106-138 | unknown id gives not found; a started task gives already started; an empty task gives no items; a full slot counter gives busy with the task left unstarted; every error leaves the task and the slots as they were; success happens exactly when the task is unstarted, has items and a slot is free, marks it started and queued, and takes exactly one slot; slots in use never exceed `parallel` |
| TaskManager.Manager.MarkStarted | internal/task/manager.go:111-122 | the locked section of `Run`: already started, or no items, with nothing changed; otherwise the task becomes started and queued and nothing else of it changes |
| TaskManager.Manager.TakeSlot | internal/task/manager.go:124-125 | the non-blocking send when a slot is free: one more slot in use, held by that task, and the counter stays within capacity |
| TaskManager.Manager.Status | internal/task/manager.go:140-149 | a copy of every field of the registered task, or nothing for an unknown id |
| TaskManager.Manager.FetchItems | internal/task/manager.go:168-181 | the loop fetches the items in order; the staged paths and the failure lines are exactly `Downloaded` and `Failures` of the outcomes; `Done` equals the successes so far, never decreases and never exceeds the number of items |
| TaskManager.Manager.ProcessTask | internal/task/manager.go:157-209 | the task ends with `Done` equal to the number of successful fetches, at most the number of items, and with the status and error text `Conclude` gives, so never queued; the result path is the archive exactly when the task ends done; the items, `Started` and `Added` are left alone |
| TaskManager.Manager.Execute | internal/task/manager.go:133-136 | the goroutine processes the task and then frees its slot on every way out; the task ends done with `results/<id>.zip`, or error with an empty result path |
| Pipeline.Outcomes | internal/task/manager.go:171-172 | one outcome per item, in item order |
| Pipeline.FailureLine | internal/task/manager.go:174 | a failure line starts with the URL, ends with the error, and has the two-character separator `": "` between them |
| Pipeline.PositionsExact | internal/task/manager.go:171-177 | the positions of successes (or failures) are listed in increasing order and are exactly the items with that outcome |
| Pipeline.DownloadedInOrder | internal/task/manager.go:175-177 | the k-th staged path is the path of the k-th item that succeeded, and every success appears |
| Pipeline.FailuresInOrder | internal/task/manager.go:173-174 | the k-th failure line is `"<url>: <err>"` for the k-th item that failed, and every failure appears |
| Pipeline.Partition | internal/task/manager.go:171-181 | `Downloaded` and `Failures` together account for every item, so neither holds more entries than there are items; there are no successes exactly when every fetch failed, and no failures exactly when every fetch succeeded |
| Pipeline.DownloadedGrows | internal/task/manager.go:178-180 | the successes of a shorter prefix of the items are a prefix of those of a longer one, so `Done` never decreases and grows by at most one per item |
| Pipeline.ProgressStep | internal/task/manager.go:172-177 | one more iteration appends that item's path to the successes, or its failure line to the failures |
| Pipeline.DownloadedStayInDir | internal/task/manager.go:239-249 | for accepted URLs every staged path is an item's local name inside the staging directory, and every local name is one safe path element, never `.` or `..` |
| Pipeline.Conclude | internal/task/manager.go:183-208 | processing always ends done or error; it records the archive exactly when it ends done; an error always comes with a non-empty message and no archive |
| Pipeline.ConcludeCases | internal/task/manager.go:183-208 | all fetches failed gives error with "all downloads failed"; a packaging failure gives error with "zip error: " and the detail; the task is done exactly when some fetch succeeded and packaging worked; it then records the archive, and its error text is the failure lines joined by "; ", empty exactly when nothing failed; a task that is not done is in error with a non-empty message and no archive |
| Pipeline.FailureLinesNonEmpty | internal/task/manager.go:174 | no failure line is empty |
| Pipeline.PartialSuccess | internal/task/manager.go:199-208 | some but not all items fetched, and the archive written: the task is done, records the archive, and its error text is non-empty and counts the failures |
| Pipeline.FullSuccess | internal/task/manager.go:168-208 | when every reply is accepted and the archive is written, every item is fetched and the task is done with the archive and an empty error |
| Pipeline.StatusText | internal/task/manager.go:29-36 | every status name has at least four characters |
| Pipeline.StatusTextInjective | internal/task/manager.go:29-36 | two statuses have the same name exactly when they are the same status |
| Fetch.ReadLimited | internal/task/manager.go:227-231 | `io.LimitReader(n)` and `io.ReadAll`: a successful read is a prefix of the body of length `min(len, n)`; the read fails exactly when the body ends before `n` bytes because of a read error |
| Fetch.ReadBody | internal/task/manager.go:226-234 | a body is accepted exactly when it fits `limitMB * 1024 * 1024` bytes and reads to its end, and is then kept whole; a longer body is refused as "file too large (> N MB)", never truncated; a read error inside the ceiling is reported as it is |
| Fetch.Download | internal/task/manager.go:211-254 | a download that succeeds had a 200 answer whose body fits the ceiling and whose file could be written |
| Fetch.DownloadSucceeds | internal/task/manager.go:211-254 | a download succeeds exactly when the server answered 200, the body fits and reads through, and the file is written; the path is then the staging directory joined with the URL's local name |
| Fetch.DownloadBadStatus | internal/task/manager.go:222-224 | every status other than 200 fails the item with "status " and the number, e.g. "status 404" |
| Fetch.DownloadTooLarge | internal/task/manager.go:226-234 | with the 25 MB ceiling, a body over 25 MiB fails with "file too large (> 25 MB)" |
| Naming.IsAllowedByTail | internal/task/manager.go:292-295 | a URL is accepted exactly when it ends in a piece that reads `.pdf` or `.jpeg` ignoring case |
| Naming.EndsWithAllowed | internal/task/manager.go:292-295 | any URL ending in `.pdf` or `.jpeg` in any mix of cases is accepted |
| Naming.EndsWithRefused | internal/task/manager.go:292-295 | a URL whose last two characters are neither `df` nor `eg` (ignoring case) is refused |
| Naming.IsAllowedExamples | internal/task/manager.go:292-295 | `.pdf`, `.jpeg` and `.PDF` endings are accepted; `.gif`, `.jpg` and `.pdf?` endings are refused, whatever comes before |
| Naming.StripTrailingSlashes | internal/task/manager.go:239 | the first step of `filepath.Base`: a prefix of the path that does not end in `/`, and every character it drops is `/` |
| Naming.AfterLastSlash | internal/task/manager.go:239 | the last element of `filepath.Base`: a suffix of the path without `/`, the whole path when it has none |
| Naming.AfterLastSlashOf | internal/task/manager.go:239 | the element after `p + "/" + q` is `q` |
| Naming.Base | internal/task/manager.go:239 | `filepath.Base` is never empty and is `/` or holds no `/`; a non-empty path without `/` is its own base |
| Naming.StripSlashesOf | internal/task/manager.go:239 | stripping the trailing slashes of a path that does not end in `/` plus any run of `/` gives the path back |
| Naming.BaseOfElement | internal/task/manager.go:239 | the base of a directory prefix, an element without `/` and any trailing slashes is that element |
| Naming.IsAllowed | internal/task/manager.go:292-295 | an accepted URL has at least four characters and its last one is `f` or `g`, ignoring case |
| Naming.SafeName | internal/task/manager.go:303-315 | whatever the input, `safeName` returns a name with no `/`, no `\`, no `?` and no `..` |
| Naming.SeparatorsGone | internal/task/manager.go:305-306 | after the first two replacements no `/` or `\` is left |
| Naming.PrefixPlain | internal/task/manager.go:311-313 | cutting at `?` adds no separator and no `..` |
| Naming.SafeNameOfClean | internal/task/manager.go:303-315 | on a trimmed name without separators or `..`, `safeName` only cuts at the first `?` |
| Naming.SafeNameKeepsPlainNames | internal/task/manager.go:303-315 | a plain, trimmed name other than `.` is returned unchanged |
| Naming.SafeNameCanReturnDot | internal/task/manager.go:308-313 | the `.` test comes before the cut at `?`, so `safeName(".?x")` is `.` |
| Naming.JoinPath | internal/task/manager.go:249 | the joined path ends in `/` followed by the name |
| Naming.LowerSuffix | internal/task/manager.go:243-248 | appending `.pdf` or `.jpeg` makes the lower-cased name end in it and adds no separator |
| Naming.LowerOfSuffixes | internal/task/manager.go:243-248 | the two extensions are already lower case |
| Naming.SuffixesExclusive | internal/task/manager.go:243-248 | no name ends in both `.pdf` and `.jpeg` |
| Naming.KeepExtension | internal/task/manager.go:243-248 | one extension step leaves the name as it is, or appends the extension exactly when the URL ends in it and the name does not, ignoring case |
| Naming.NameWithExtension | internal/task/manager.go:240-248 | the name, or `file` when it is empty, comes back as it is or with exactly one of `.pdf` and `.jpeg` appended |
| Naming.KeepExtensionFacts | internal/task/manager.go:243-248 | one extension step: the name ends in the extension whenever the URL does, is kept when it already has it or the URL lacks it, and gains no separator |
| Naming.NameWithExtensionFacts | internal/task/manager.go:240-248 | the fallback to `file` and both extension steps add no separator and keep the URL's extension |
| Naming.NameWithExtensionAbsent | internal/task/manager.go:240-248 | the fallback and the extension steps add no `/` or `\` |
| Naming.NameWithExtensionPdf | internal/task/manager.go:243-248 | a URL ending in `.pdf` gives a name ending in `.pdf`, even after the `.jpeg` step |
| Naming.NameWithExtensionJpeg | internal/task/manager.go:246-248 | a URL ending in `.jpeg` gives a name ending in `.jpeg` |
| Naming.LocalName | internal/task/manager.go:239-248 | the local file name is never empty and never holds `/` or `\`; it ends, ignoring case, in the extension the URL ends in; for an accepted URL it is not `.` or `..` |
| Naming.LocalNameKeepsTypedName | internal/task/manager.go:239-248 | a sanitized name that already carries the URL's extension is used as it is |
| Naming.NameWithExtensionOfEmpty | internal/task/manager.go:240-248 | for an accepted URL an empty name becomes `file.pdf` or `file.jpeg`, after the URL's extension |
| Naming.LocalNameOfEmpty | internal/task/manager.go:239-248 | for an accepted URL whose base sanitizes to the empty name, the local name is `file.pdf` when the URL ends in `.pdf` and `file.jpeg` otherwise |
| Naming.LocalNameFallback | internal/task/manager.go:239-245 | the URL `prefix + "/?.pdf"`, whose last element is only a query string, gives the name `file.pdf` |
| Naming.FallbackUrl | internal/task/manager.go:239 | the base of `prefix + "/?.pdf"` is `?.pdf`, and the URL ends in `.pdf` |
| Naming.FallbackSafeName | internal/task/manager.go:311-313 | `safeName("?.pdf")` is empty |
| Naming.HexEncode | internal/task/manager.go:300 | two characters per byte |
| Naming.HexValue | internal/task/manager.go:300 | a hex digit stands for a nibble below 16 |
| Naming.HexRoundTrip | internal/task/manager.go:300 | the encoding is lower-case hex that decodes back to the bytes |
| Naming.NewID | internal/task/manager.go:297-301 | an identifier is 32 lower-case hex digits |
| Naming.NewIDInjective | internal/task/manager.go:297-301 | two identifiers are equal exactly when the random bytes are |
| Text.TrimLeft | internal/task/manager.go:304 | drops exactly the leading white space |
| Text.TrimRight | internal/task/manager.go:304 | drops exactly the trailing white space |
| Text.TrimSpace | internal/task/manager.go:304 | the trimmed name neither starts nor ends with white space |
| Text.TrimSpaceKeepsTrimmed | internal/task/manager.go:304 | trimming a trimmed name changes nothing |
| Text.Lower | internal/task/manager.go:293 | lower-casing keeps the length |
| Text.ReplaceAll | internal/task/manager.go:305-307 | replacing by a text no longer than the pattern never lengthens the input, and by one of equal length keeps its length |
| Text.LowerAppend | internal/task/manager.go:293 | lower-casing distributes over concatenation |
| Text.ReplaceCharPointwise | internal/task/manager.go:305-306 | replacing one character by another replaces it at every position and keeps the rest |
| Text.ReplaceCharAbsent | internal/task/manager.go:305-306 | replacing an absent character changes nothing |
| Text.ReplaceAllAbsent | internal/task/manager.go:307 | a replacement introduces no character absent from the input and the replacement |
| Text.ReplaceDoubleDotGone | internal/task/manager.go:307 | after replacing `..` by a text without dots no two dots are adjacent |
| Text.ReplaceAllHead | internal/task/manager.go:305-307 | a replacement keeps a first character that cannot start the pattern |
| Text.ReplaceDoubleDotIdentity | internal/task/manager.go:307 | a name without `..` is unchanged by that replacement |
| Text.IndexOf | internal/task/manager.go:311 | `IndexByte`: -1 exactly when the character is absent, otherwise its first position |
| Text.JoinEmpty | internal/task/manager.go:204 | joining non-empty lines is empty exactly when there are none |
| Text.Join | internal/task/manager.go:204 | joining no lines gives the empty text; otherwise the result starts with the first line and ends with the last |
| Text.DigitChar | internal/task/manager.go:223 | a digit below ten is the character of that value |
| Text.NatDigitsRoundTrip | internal/task/manager.go:223 | `%d` of a natural number is non-empty digit text without a leading zero that reads back as the number |
| Text.Decimal | internal/task/manager.go:223 | `%d` of a non-negative number is digit text that reads back as the number; of a negative one, `-` followed by digit text that reads back as its magnitude |

## Left out

- Locks and goroutines: every operation runs as one step. The goroutine `Run` starts is the
  separate method `Execute`, so states a concurrent `Status` could see midway, and callers
  racing on one task, are not modelled.
- Network access: `http.NewRequest`, `client.Do`, the 15-second client timeout and the
  response body are inputs (`Fetch.Exchange`, `Fetch.Body`). `url.ParseRequestURI` in
  `AddItem` is the input `uriFailure`.
- The unused `Content-Type` read (internal/task/manager.go:236-237) does not influence anything.
- `os.MkdirAll`, `os.RemoveAll` and `os.WriteFile`: a failed write is an input of each reply.
  The staging directory is created without a check in the code, so its failure only shows up as a write failure.
- `zipFiles` and `addFile` (internal/task/manager.go:256-290): the archive format and its file I/O
  are library work; packaging is the input `packFailure`.
- `crypto/rand` in `newID`: the 16 bytes are an input; uniqueness of random draws is not modelled.
  `Create` with an identifier drawn twice replaces the earlier entry, as the Go map does.
- `strings.ToLower` is modelled on ASCII letters only. It is used only in suffix tests
  against the ASCII texts `.pdf` and `.jpeg`. Unicode case mappings that turn a non-ASCII
  letter into an ASCII one are not modelled.
- `filepath.Base` uses the Unix separator. `filepath.Join(dir, name)` is `dir + "/" + name`,
  so the `Clean` that `Join` applies is not modelled. For the one-element, never `.`/`..` names
  of accepted URLs (`Naming.LocalName`) it can only normalise `dir`.
- `Fetch.SizeLimit`: integers are unbounded, so the `int64` overflow of `limitMB * 1024 * 1024`
  is not modelled; it cannot occur with the fixed 25 MB.
- Fetch.DownloadSucceeds: does not restate that the path is safe; `Naming.LocalName` and
  `Pipeline.DownloadedStayInDir` state it.
- Fetch.Download: its own contract states only what a success implies about the reply; the
  exact condition and the path are stated by `Fetch.DownloadSucceeds`, kept apart so that
  every use of `Download` does not carry the naming facts.
- `Pipeline.Downloaded` and `Pipeline.Failures` carry no contract of their own; what they compute is
  stated by `Pipeline.DownloadedInOrder`, `Pipeline.FailuresInOrder` and `Pipeline.Partition`.
- `TaskManager.Manager.constructor` takes `parallel` as a natural number. Go's
  `make(chan struct{}, parallel)` (internal/task/manager.go:65) panics on a negative capacity;
  that case is not modelled.
- The HTTP layer (`internal/httpapi/server.go`) is not part of this model.
