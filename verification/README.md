# Verification model of BootControl

BootControl edits boot configuration as root. This project models the parts of it where a mistake
is hard to see in a single function body, and proves what they promise:

- **The generated-menu parser** (`Text`, `Numerals`, `Decimal`, `MenuLine`, `MenuWords`, `MenuHeader`,
  `MenuParser`, `MenuForest`, `MenuRender`). A quote-aware tokenizer, a second, independent brace
  scanner and a stack machine turn `grub.cfg` into entries with `GRUB_DEFAULT` index paths. Proved:
  the tokenizer inverts every spelling of a line in single quotes, double quotes, escapes and bare
  text; the two scanners agree on every accepted line; the entries of every prefix of every scan
  are a preorder forest; paths are unique; parsing inverts printing for menus of any depth, in any
  quoting style.
- **The comment-preserving editor** (`GrubConfig`, `GrubEdit`, `ShellWords`, `GrubSettings`,
  `MenuSelection`). Parse, change the last assignment, print, read back. Proved: which lines are
  accepted, by position; the text edit refines a map update, with the exact condition on what can
  be written; a written line is one shell word; typed settings round-trip exactly when they pass
  validation; a chosen menu entry ends up in `GRUB_DEFAULT`.
- **The flock/ETag write protocol** (`Hash`, `Schedules`, `FlockProtocol`, `FlockOwnNames`,
  `FlockTraces`, `FlockLocks`, `GrubHistory`, `LoaderWrite`, `LoaderLocks`). Any number of writers interleave at the level of
  system calls, over names, inodes, per-inode locks and a shared temporary name, failing
  anywhere. Proved: every commit of a request with an ETag was authorised by it, and its
  writer's snapshot holds what it transformed; without a rename between a writer's `open` and
  its lock the history is serial, so no update is lost; with such a gap updates are lost, by
  writers that locked in time too. A commit is whole in every interleaving exactly when its
  temporary name is its own. A lock is held exactly by a writer between its lock and its end, so
  after any failures the next caller commits. The systemd-boot writer drops its lock before it writes: without
  any gap its callers lose updates, tear the file, and change it in a call that fails; when
  their stores do not overlap nothing is torn, and the history is serial under an exact
  condition.
- **Snapshots** (`PathNames`, `ManagedPaths`, `FixedWidth`, `Sorting`, `SnapshotData`,
  `SnapshotRestore`, `SnapshotIds`, `Retention`, `Instants`, `SnapshotStore`, `SnapshotHistory`). Capture, the restore transaction,
  listing and retention, changed in place by a class. Proved: restore checks everything before it
  writes anything; it succeeds exactly under a stated condition; which paths are managed; over whole runs a successful
  restore installs exactly the rows the snapshot was given, even when flat names collide, and in
  gap-free runs of the write protocol those are the bytes the commit replaced;
  `reap` keeps exactly the newest.
- **UEFI boot variables** (`BootOrder`, `EfivarStore`, `LoadOption`, `BootEntries`): the binary
  codecs, the permutation check, the attribute-prefixed store over whole runs, load-option
  decoding (section 3.1.3 of UEFI 2.10, UTF-16 of section 2 of RFC 2781) and the entry listing.
- **The idle lifecycle** (`Lifecycle`): counter, generation, watch channel and timer as
  interleaved steps with a clock.
- **`loader.conf`** (`LoaderConf`): the first-match editor and its reader.

## How the source is modelled

Loops over lines, bytes or variables are methods with loop invariants, proved equal to a
specification function; the lemmas are about those functions. `EfivarFs`, `SnapshotStore.Store`,
`LoaderFile`, `ActivityTracker` and `OperationGuard` are classes, because the source changes them
in place. Where several threads or processes meet, the model is a step function over an explicit
state, and the theorems are about every schedule.

- Text is `seq<char>`; `str::lines` (with its handling of `\r\n`), `str::trim` and Unicode white
  space are modelled exactly, so the laws hold for every line ending.
- A SHA-256 digest carries the content it was computed from: equal digests mean equal contents. A
  caller may also present text that is no digest.
- I/O failure, the clock, directory order and the locks of other processes are parameters: every
  law holds for every choice of them. Symbolic links do not occur; the snapshot directory lies
  under no managed path. Refusals of the kernel (a directory where a file is expected, a
  trailing slash) are among the failing calls.
- Manifests are datatypes; a file's content is plain text or a serialised manifest, so a manifest
  cannot contain its own digest.

## Results about the code that its documentation does not tell

- `FlockTraces.StaleWriterOverwrites`, `FlockTraces.InTimeWriterOverwrites`: a late lock loses
  updates, and a writer that locked in time is not safe from another's late lock. When every
  temporary name is a writer's own, `FlockOwnNames.OwnNamesAreSerialExactly` is the exact condition:
  the history is serial if and only if every commit replaced the file that it checked. For one
  undisturbed writer `FlockTraces.UndisturbedWriterCommits` says when that is.
- `FlockTraces.GapTearsTheFile`, `FlockTraces.GapInstallsAnothersText`, `FlockTraces.GapInstallsAPart`,
  `FlockTraces.GapMixesTexts`: with the fixed temporary name of GRUB writers a late lock can install an
  empty file, another's text, a part of it, or a mixture of two texts. `FlockTraces.WholeExactly`
  is exact: a request's commits install what they checked and transformed, in every interleaving, if
  and only if its temporary name is its own or it never accepts; `FlockOwnNames.OwnNamesNeverTear`
  says the same of the file.
- `FlockTraces.CommitsExactly` says which requests commit at all: those without an ETag (a restore's
  further targets) over any content.
- `LoaderWrite.CheckIsNotALock`: `atomic_write_with_etag` releases the lock at the end of the check and
  `set_loader_default` computes the text before it, so updates are lost. `LoaderWrite.StoresTearTheFile`
  and `LoaderWrite.FailedCallWrites`: as the lock does not cover the store, two stores can leave the
  file empty, and a call that reports an error can change it. `LoaderWrite.ApartStoresAreSerialExactly`
  is exact for stores that do not overlap: each installs its whole text, and the history is serial if
  and only if every update prepared from, checked and replaced one and the same content. For one
  undisturbed update `LoaderWrite.UndisturbedUpdate` gives that condition at the start of its store.
- `LoaderWrite.EtagIsOptional`: an absent file accepts any ETag and an empty ETag skips the check,
  although the documentation asks for a match; `LoaderWrite.SetDefaultExactly` says when it succeeds.
- `SnapshotHistory.UndoReturnsToSnapshot`: a restore returns the targets to what they held if and only if
  the caller supplied what they held, which after a late lock it may not.
- `GrubEdit.VendorLineIsRejected`: the one shell expression the parser accepts cannot be written
  back; `GrubEdit.EditExact` gives the exact condition on the keys and values of any list of changes with
  distinct keys.
- `LoaderConf.AcceptedIdCanBeLost`: `validate_entry_id` admits ids that are not read back;
  `LoaderConf.ReadAfterWrite` says exactly which are. `LoaderConf.CarriageReturnsWearOff`: a second
  identical update can still change the file; `LoaderConf.UpdateIsIdempotent` says exactly when not.
- `EfivarStore.StepKeepsExactly`: a failing call keeps the boot order and a listed `BootNext` if and
  only if it does not tear its write.
- `Lifecycle.ReturnsWhileBeginning`: the waiter may return while one operation has begun and not yet
  published; `Lifecycle.IdleSoundness` shows that this is the only way.
- `BootEntries.SignedNamePasses`, `BootEntries.LowerCaseIsASecondName`: names that are not `Boot####`
  are listed, so one index can appear twice; `BootEntries.NamesExactly` gives the exact set of names,
  `BootEntries.ListsIndicesOnce` the exact condition.
- `PathNames.FlatNamesCollide`: flat snapshot names collide; `SnapshotData.IntactExactly` says
  exactly when that matters, `SnapshotHistory.UndoInstallsCaptured` that it never restores wrong bytes.

## Model

| member | source | states |
|---|---|---|
| MenuLine.TokenizeMenuLine | crates/core/src/grub_cfg.rs:262-334 | the tokenizer loop produces exactly the specified token list, or rejects an unterminated quote |
| MenuLine.UnquotedBraces | crates/core/src/grub_cfg.rs:340-366 | the brace scanner returns exactly the braces outside quotes and escapes |
| MenuLine.ScannersAgree | crates/core/src/grub_cfg.rs:262-366 | on every line the tokenizer accepts, its Open/Close tokens are the braces the independent scanner returns |
| MenuLine.ParseMenuLine | crates/core/src/grub_cfg.rs:196-243 | the header loop yields the title, the last id option and the block depth of the token list, or the malformed error |
| MenuLine.HeaderDepthIsScanned | crates/core/src/grub_cfg.rs:196-243 | the block depth taken from the tokens is the saturating balance of the independently scanned braces |
| MenuParser.ScanOpaque | crates/core/src/grub_cfg.rs:90-102 | the brace loop inside ignored text counts opaque blocks without underflow, as specified |
| MenuParser.BuildPath | crates/core/src/grub_cfg.rs:124-136 | the printed path is the indices of the open submenus joined by `>`, then the item's own index |
| MenuParser.ParseMenuEntries | crates/core/src/grub_cfg.rs:70-162 | the line loop computes the specified scan: the entries, or the error of the first malformed line or of an unclosed block |
| MenuParser.RunAppend | crates/core/src/grub_cfg.rs:82-153 | scanning a text in two parts is scanning it whole; the first error stops the scan |
| Text.LinesOfText | crates/core/src/grub_cfg.rs:82-82 | text after the last line feed is a line of its own and keeps its carriage return; the others lose one |
| MenuForest.ScanIsPreorder | crates/core/src/grub_cfg.rs:104-153 | after any number of lines of any text the emitted entries are a preorder listing of a forest |
| MenuForest.ParsedMenuIsForest | crates/core/src/grub_cfg.rs:104-162 | depth equals the number of `>`, paths are distinct, every parent is an earlier submenu, siblings have no gaps, subtrees are contiguous |
| MenuForest.PathsAreDistinct | crates/core/src/grub_cfg.rs:124-136 | two entries of a preorder listing never print the same path |
| MenuForest.ParentComesFirst | crates/core/src/grub_cfg.rs:104-136 | the path of a nested entry extends the path of an earlier submenu |
| MenuForest.SmallerSiblingComesFirst | crates/core/src/grub_cfg.rs:104-122 | every smaller index at the same level was handed out earlier |
| MenuForest.SubtreeIsContiguous | crates/core/src/grub_cfg.rs:104-153 | whatever lies between a submenu and one of its descendants is its descendant too |
| MenuForest.PathStringInjective | crates/core/src/grub_cfg.rs:124-136 | different index paths print as different strings |
| MenuForest.PathArrows | crates/core/src/grub_cfg.rs:124-140 | the number of `>` in a printed path is the depth |
| MenuWords.TokensInvertSpelling | crates/core/src/grub_cfg.rs:262-334 | however the words of a line are quoted, escaped or bare, and wherever its blanks and braces stand, the tokenizer returns exactly those words and braces, each word marked quoted if and only if a part of it is |
| MenuWords.OpenQuoteIsRejected | crates/core/src/grub_cfg.rs:329-331 | whatever stands before it, a quote that is never closed makes the line malformed |
| MenuWords.LastBackslashIsDropped | crates/core/src/grub_cfg.rs:297-301 | a backslash at the end of a line escapes nothing and leaves no trace |
| MenuWords.BracesBeforeOpenQuote | crates/core/src/grub_cfg.rs:336-368 | on a line with an unclosed quote the brace scanner reports exactly the braces before it |
| MenuHeader.HeaderRoundTrip | crates/core/src/grub_cfg.rs:196-334 | a header line in any quoting style parses to its first quoted word as title, its last id, and the blocks its braces leave open |
| MenuHeader.UntitledIsRejected | crates/core/src/grub_cfg.rs:233-237 | without a quoted word before the brace a header is malformed, whatever follows the brace |
| MenuHeader.NoBraceExactly | crates/core/src/grub_cfg.rs:228-232 | a header with closed quotes is refused for its brace if and only if it opens none |
| MenuHeader.QuoteSpells | crates/core/src/grub_cfg.rs:256-261 | every text is spelled as one quoted word by the apostrophe idiom of `grub-mkconfig` |
| MenuHeader.DoubleQuotesSpell | crates/core/src/grub_cfg.rs:319-325 | every text without a double quote is spelled as one quoted word between double quotes |
| MenuRender.OpaqueExactly | crates/core/src/grub_cfg.rs:90-102 | inside ignored text a line ends the block at the first brace that closes it, and otherwise changes the depth by its balance |
| MenuRender.LevelExactly | crates/core/src/grub_cfg.rs:141-153 | at menu level braces close ignored blocks before submenus and ignore what nothing is open for |
| MenuRender.MalformedHeaderFails | crates/core/src/grub_cfg.rs:108-109 | after any menu the first malformed header fails the parse with its error, whatever follows |
| MenuRender.OpenBlockFails | crates/core/src/grub_cfg.rs:164-166 | a file that ends while the block of an item is open is malformed |
| MenuRender.ParseInvertsRender | crates/core/src/grub_cfg.rs:70-334 | every printed menu, of any depth and in any quoting style, with one-line items, ignored lines and balanced ignored blocks, is read back as exactly its preorder listing |
| Decimal.DigitsValue | crates/core/src/grub_settings.rs:146-155 | printed digits are decimal digits and have the printed value |
| Decimal.ParsePrinted | crates/core/src/grub_settings.rs:146-155 | parsing a printed number returns it exactly when it fits in 32 bits |
| GrubConfig.ParseGrubConfig | crates/core/src/grub.rs:393-435 | the line loop accepts exactly texts without a rejected line, keeps all lines, maps each key to its last value, and otherwise reports the first rejected line |
| GrubConfig.ParseKeyValue | crates/core/src/grub.rs:151-200 | a line that starts with a valid key and `=` is read as that key whatever the rest contains |
| GrubConfig.ValuesAreHoldable | crates/core/src/grub.rs:151-247 | every value the parser returns has a valid key, is one line and holds no dangerous construct, except the one vendor expression |
| GrubConfig.CrKeepsMeaning | crates/core/src/grub.rs:151-247 | an accepted line means the same without its trailing carriage return |
| GrubConfig.DangerExactly | crates/core/src/grub.rs:59-65 | what is dangerous in a text and how it is reported, by position: `$` before `(`, a back-tick, two `<`, a pipe, an opening brace, in this order |
| GrubConfig.InertExactly | crates/core/src/grub.rs:223-231 | a text passes if and only if no position holds one of those |
| GrubConfig.AcceptedExactly | crates/core/src/grub.rs:151-200 | a line is accepted if and only if it is blank, a comment, or a valid key before `=` and a text that passes or the one vendor expression |
| GrubConfig.ValidKeyExactly | crates/core/src/grub.rs:205-217 | a key is a letter or underscore and then letters, digits and underscores |
| GrubConfig.OffenderExactly | crates/core/src/grub.rs:194-200 | a line that is no assignment is named after the danger in it, or else after the first keyword it starts with |
| GrubConfig.ValueIsRead | crates/core/src/grub.rs:240-247 | one pair of double quotes and final carriage returns are not part of a value, everything else is |
| GrubConfig.ValuesAreInert | crates/core/src/grub.rs:151-247 | every value of an accepted file passes that test, the vendor expression aside |
| GrubEdit.FindLast | crates/daemon/src/grub_manager.rs:579-587 | the reverse search returns the last line that assigns the key |
| GrubEdit.ApplyChanges | crates/daemon/src/grub_manager.rs:577-592 | the edit loop produces the edited lines and the updated in-memory map |
| GrubEdit.EditorAgreesWithParser | crates/daemon/src/grub_manager.rs:644-647 | on every line the parser accepts, the editor's prefix test and the parser name the same key |
| GrubEdit.EditIsLocal | crates/daemon/src/grub_manager.rs:577-592 | every line except the last assignment of a changed key stays in place unchanged; absent keys are appended once each, in order |
| GrubEdit.BuildParse | crates/daemon/src/grub_manager.rs:654-660 | a written assignment with a valid key and representable value parses back to that pair |
| GrubEdit.BuildParseDiffers | crates/daemon/src/grub_manager.rs:654-660 | a harmless one-line value that is not representable is read back as a different value |
| ShellWords.WrittenLineIsOneWord | crates/daemon/src/grub_manager.rs:654-660 | the line written for a value without quotes, backslashes and braces is the one shell word `key=value`, quoted if and only if the value is empty or has a blank or a tab; other white space splits it |
| GrubEdit.EditedTextIsLines | crates/daemon/src/grub_manager.rs:664-671 | the written text is the edited lines, each ended by a line feed |
| GrubEdit.PutLineValues | crates/daemon/src/grub_manager.rs:579-592 | replacing or appending one assignment updates the parsed map at its key and nowhere else |
| GrubEdit.ReadBack | crates/daemon/src/grub_manager.rs:664-671 | joining accepted lines and parsing the file again gives the same map |
| GrubEdit.EditRefinesMapUpdate | crates/daemon/src/grub_manager.rs:577-671 | for any accepted file and any valid changes the written text is accepted and reads as the old map updated by the changes |
| GrubEdit.EditExact | crates/daemon/src/grub_manager.rs:577-671 | a list of changes with distinct keys is read back, for every accepted file, if and only if all its keys are valid and all its values representable |
| GrubEdit.SingleEditExact | crates/daemon/src/grub_manager.rs:644-671 | one change is read back if and only if its key is valid and its value representable, for every accepted file |
| GrubEdit.VendorLineIsRejected | crates/core/src/grub.rs:59-80 | the vendor expression is accepted when read, but its written form is rejected |
| GrubSettings.PlainIsRepresentable | crates/daemon/src/grub_manager.rs:654-660 | words of key characters and `>` can always be written and read back |
| GrubSettings.SettingsRoundTrip | crates/daemon/src/grub_manager.rs:390-409 | writing typed settings into any accepted file and reading them back gives exactly them, if and only if they pass validation; other keys keep their values |
| GrubSettings.SettingsExactly | crates/core/src/grub_settings.rs:112-163 | which values mean which settings, and what a missing key means |
| GrubSettings.SettingsErrors | crates/core/src/grub_settings.rs:112-163 | which key is reported: the first of the four, in this order, whose value is not one of its kind |
| MenuSelection.SelectionExact | crates/daemon/src/grub_manager.rs:434-465 | the selection check accepts exactly the paths of bootable entries of the menu the ETag names, each belonging to one entry |
| MenuSelection.SelectionErrors | crates/daemon/src/grub_manager.rs:434-465 | what each refusal means: stale ETag, malformed menu, a submenu, or a path no entry has |
| MenuSelection.ChosenEntryBecomesDefault | crates/daemon/src/grub_manager.rs:411-432 | the path emitted for any bootable entry passes the check and is what `GRUB_DEFAULT` reads as after the write, other keys unchanged |
| FlockOwnNames.EveryCommitIsAuthorised | crates/daemon/src/grub_manager.rs:494-592 | in every interleaving each rename of a request with an ETag was preceded by a check of it against the bytes it transformed; it installs their transformation if its temporary name is its own; its writer captured exactly the file it checked, when asked to |
| FlockProtocol.MutualExclusion | crates/daemon/src/grub_manager.rs:494-526 | when locks are taken in time at most one writer is between its lock and its rename |
| FlockLocks.LockedExactly | crates/daemon/src/grub_manager.rs:505-594 | in every interleaving, with any gaps and failures, an inode is locked exactly by the writer that stands between its successful lock on it and its end |
| FlockLocks.NextCallerCommits | crates/daemon/src/grub_manager.rs:486-594 | after any run, failed calls included, once nobody is under way the next caller whose request admits the file commits over exactly that file, and leaves no lock |
| FlockProtocol.GapFreeRunsAreSerial | crates/daemon/src/grub_manager.rs:494-594 | without a rename between open and lock every commit replaces exactly the bytes its ETag vouched for by their transformation, the commits form one chain, and the file always holds one whole version |
| FlockProtocol.SnapshotHoldsReplaced | crates/daemon/src/interface.rs:752-768 | when locks are taken in time, the snapshot a commit's writer took holds exactly the file, bytes and mode, that the commit replaced |
| FlockProtocol.NoLostUpdate | crates/daemon/src/grub_manager.rs:540-552 | of two commits with the same ETag the later one found the text the earlier one found, and what the commit before it installed, so adjacent ones left the text identical |
| FlockTraces.UndisturbedWriterCommits | crates/daemon/src/uki_manager.rs:117-205 | a writer that runs undisturbed commits the transformation of the inode it opened; the history stays serial if and only if that inode holds the current content |
| FlockTraces.CommitsExactly | crates/daemon/src/snapshot.rs:558-590 | an undisturbed writer commits if and only if it has no ETag (as for a restore's further targets) or that of the inode it opened, and its transformation accepts the content; otherwise it changes nothing |
| FlockOwnNames.OwnNameCommitsAreWhole | crates/daemon/src/uki_manager.rs:104-205 | in every interleaving, with any gaps, failures and other writers, a commit whose temporary name is its own installs exactly the transformation of what it checked, under the mode asked for or that of the checked file |
| FlockOwnNames.OwnNamesNeverTear | crates/daemon/src/uki_manager.rs:104-205 | when every temporary name is a writer's own, the file always holds what the last commit installed |
| FlockOwnNames.OwnNamesAreSerialExactly | crates/daemon/src/uki_manager.rs:117-205 | in such runs the history is serial if and only if every commit replaced the file that it checked |
| FlockTraces.StaleWriterOverwrites | crates/daemon/src/grub_manager.rs:497-526 | for any two requests with the same current ETag some interleaving with a late lock lets both commit and loses the first |
| FlockTraces.InTimeWriterOverwrites | crates/daemon/src/grub_manager.rs:497-526 | a writer that locks in time overwrites an update committed meanwhile by a writer that locked late |
| FlockTraces.GapTearsTheFile | crates/daemon/src/grub_manager.rs:629-708 | with the fixed temporary name a late-locking writer truncates the file another writer then installs |
| FlockTraces.GapInstallsAnothersText | crates/daemon/src/grub_manager.rs:629-708 | with the fixed temporary name a commit can install another writer's text |
| FlockTraces.GapInstallsAPart | crates/daemon/src/grub_manager.rs:664-708 | with the fixed temporary name a commit can install the part of its text that another call wrote before it failed |
| FlockTraces.GapMixesTexts | crates/daemon/src/grub_manager.rs:664-708 | with the fixed temporary name a commit can install its text followed by the rest of another's |
| FlockTraces.WholeExactly | crates/daemon/src/grub_manager.rs:629-708 | the commits of a request install the transformation of what they checked in every interleaving if and only if its temporary name is its own, or it accepts no content |
| GrubHistory.CommittedChangesAreAllThere | crates/daemon/src/grub_manager.rs:486-594 | after any gap-free interleaving of GRUB writers the file is accepted and reads as the original settings with all committed changes applied in commit order |
| LoaderConf.UpdateOrAppendKey | crates/daemon/src/systemd_boot_manager.rs:314-334 | the loop replaces the first line of the key, or appends one, and changes no other line |
| LoaderConf.ReadLoaderConfDefault | crates/daemon/src/systemd_boot_manager.rs:129-148 | the search returns the value of the first `default` line |
| LoaderConf.KeyOfLine | crates/daemon/src/systemd_boot_manager.rs:135-146 | writer and reader recognise the same key lines although they trim differently, with or without a carriage return |
| LoaderConf.DefaultInAnyCase | crates/daemon/src/systemd_boot_manager.rs:129-148 | a line whose first word is `default` in any mixture of cases, with any white space around its parts, is read as the default; a line with another first word is not |
| LoaderConf.ValidIdExactly | crates/daemon/src/systemd_boot_manager.rs:292-300 | an id is valid if and only if it is not empty, has no separator and no two dots in a row |
| LoaderConf.ReadAfterWrite | crates/daemon/src/systemd_boot_manager.rs:306-334 | for any content the default read after the update is the id if and only if the id is one line without outer white space |
| LoaderConf.DefaultIsClean | crates/daemon/src/systemd_boot_manager.rs:129-148 | whatever is read as the default is one line without outer white space |
| LoaderConf.UpdateIsIdempotent | crates/daemon/src/systemd_boot_manager.rs:314-334 | for any content and id a second identical update changes nothing if and only if the id is one line and no line but the default line keeps a carriage return |
| LoaderConf.CarriageReturnsWearOff | crates/daemon/src/systemd_boot_manager.rs:314-334 | a content to which a second identical update makes another change |
| LoaderConf.MarkedExactly | crates/daemon/src/systemd_boot_manager.rs:306-311 | after the update exactly the entry with that id is marked default, if and only if the id is one line without outer white space and does not end in `.conf` |
| LoaderConf.AcceptedIdCanBeLost | crates/daemon/src/systemd_boot_manager.rs:292-300 | an id that passes validation but is not read back |
| LoaderWrite.LoaderFile.SetLoaderDefault | crates/daemon/src/systemd_boot_manager.rs:263-281 | the new content and the result are the specified effect, with its order of checks and all its errors |
| LoaderWrite.LoaderFile.AtomicWriteWithEtag | crates/daemon/src/systemd_boot_manager.rs:338-387 | busy lock, unreadable file, stale ETag and failed write in this order leave the content; otherwise it becomes the text |
| LoaderWrite.SetDefaultExactly | crates/daemon/src/systemd_boot_manager.rs:263-387 | success if and only if the id is valid, the write succeeds and the file is absent, or readable, unlocked and the ETag empty or current; failure changes nothing; the id is read back exactly when it is clean |
| LoaderWrite.SetDefaultErrors | crates/daemon/src/systemd_boot_manager.rs:263-387 | what each error means: a bad id, a lock held by another, a stale ETag, or a failing call |
| LoaderLocks.LockedExactly | crates/daemon/src/systemd_boot_manager.rs:338-387 | in every interleaving an inode is locked exactly by the caller that stands between its successful lock and the end of its check |
| LoaderWrite.EtagIsOptional | crates/daemon/src/systemd_boot_manager.rs:338-387 | an absent file accepts a stale ETag and an existing one an empty ETag |
| LoaderWrite.EveryUpdateIsChecked | crates/daemon/src/systemd_boot_manager.rs:338-387 | in every interleaving an update that found a file was checked against content its ETag vouches for, unless the ETag is empty |
| LoaderWrite.CheckIsNotALock | crates/daemon/src/systemd_boot_manager.rs:269-387 | for any content and any two requests with its ETag some interleaving lets both succeed and loses the first update |
| LoaderWrite.StoresTearTheFile | crates/daemon/src/systemd_boot_manager.rs:384-418 | for any content and any two requests with its ETag some interleaving, without a gap between opening and locking, leaves the file empty after a successful call |
| LoaderWrite.FailedCallWrites | crates/daemon/src/systemd_boot_manager.rs:384-418 | going on, the other call writes its text into the installed file and then reports an error |
| LoaderWrite.ApartStoresAreSerialExactly | crates/daemon/src/systemd_boot_manager.rs:263-418 | when no temporary file is created between another's creation and rename, every update installs its whole text over what the previous one left, and the history is serial if and only if every update prepared from, checked and replaced one content |
| LoaderWrite.UndisturbedUpdate | crates/daemon/src/systemd_boot_manager.rs:263-387 | an update past its check whose store is undisturbed keeps the history serial if and only if the text it was computed from and the text it checked are what the file still holds |
| LoaderWrite.ExclusiveRunsAreSerial | crates/daemon/src/systemd_boot_manager.rs:263-387 | callers that do not overlap form one chain: each update is checked against, computed from and replaces what the previous one left |
| PathNames.PlainIdExactly | crates/daemon/src/snapshot.rs:403-418 | an id is accepted if and only if it is non-empty, not `.` or `..` and without separators; it then names one directory |
| PathNames.PathOrder | crates/daemon/src/snapshot.rs:543-553 | the component-wise order used to sort restore targets is a strict total order |
| ManagedPaths.ManagedExactly | crates/daemon/src/snapshot.rs:428-441 | an absolute path is managed if and only if it has no `..` and the names of some managed path are the first of its own, whole names being compared |
| ManagedPaths.AbsoluteIsPathOf | crates/daemon/src/snapshot.rs:428-441 | every absolute path is one that the law speaks of |
| ManagedPaths.RelativeIsNotManaged | crates/daemon/src/snapshot.rs:430-432 | a relative path is never managed |
| ManagedPaths.InsideAndBeside | crates/daemon/src/snapshot.rs:1242-1285 | a path inside a managed directory is managed, and a sibling that only shares the first characters of its name is not |
| ManagedPaths.LockOrder | crates/daemon/src/snapshot.rs:543-547 | targets are locked in the order of their names, compared one by one as text |
| PathNames.FlattenInjective | crates/daemon/src/snapshot.rs:706-712 | flat names tell apart all absolute paths whose components neither end in `_` nor contain `__` |
| PathNames.UnflattenInverts | crates/daemon/src/snapshot.rs:706-712 | splitting a flat name at double underscores returns the components it was made from |
| PathNames.FlatNamesCollide | crates/daemon/src/snapshot.rs:706-712 | neither condition can be dropped: families of different paths with the same flat name |
| FixedWidth.ModeRoundTrip | crates/daemon/src/snapshot.rs:605-621 | the accepted mode strings are exactly the printed modes, and each parses to its mode |
| SnapshotData.CreateAddsOne | crates/daemon/src/snapshot.rs:311-344 | a capture leaves every existing snapshot untouched; when it succeeds its directory is new and complete |
| SnapshotData.CaptureReads | crates/daemon/src/snapshot.rs:269-281 | the captured rows are the bytes and printed modes the files have at that moment, in request order |
| SnapshotData.CaptureExactly | crates/daemon/src/snapshot.rs:269-281 | reading the files succeeds if and only if all are there and no call fails |
| SnapshotData.CreateExactly | crates/daemon/src/snapshot.rs:290-344 | a capture succeeds if and only if its rows match the request, its id is new and no call fails; a mismatch or a taken id changes nothing |
| SnapshotIds.IdsExactly | crates/daemon/src/snapshot.rs:305-310 | two captures have the same id if and only if their second, operation and job tag are the same |
| SnapshotIds.IdIsPlainExactly | crates/daemon/src/snapshot.rs:305-310 | the id of a capture is one a restore accepts if and only if no part of it has a separator |
| SnapshotIds.CapturedManifestIsRead | crates/daemon/src/snapshot.rs:317-344 | the manifest read after a capture has every field of the request and every captured row in its place |
| SnapshotIds.CapturedIsListed | crates/daemon/src/snapshot.rs:360-394 | the listing shows a capture under its id with the operation, time and job of the request |
| SnapshotIds.FailedCaptureIsNotRestorable | crates/daemon/src/snapshot.rs:311-344 | a capture that fails half-way leaves no manifest that a restore would read |
| SnapshotIds.RestoreErrors | crates/daemon/src/snapshot.rs:509-626 | what each error of a restore means: id, missing, unreadable or newer manifest, first unmanaged row, locked target, stale ETag |
| SnapshotData.IntactExactly | crates/daemon/src/snapshot.rs:318-344 | all payloads can be found again if and only if no flat name is `manifest.json` and files sharing one have equal content |
| SnapshotData.PlainPathsAreIntact | crates/daemon/src/snapshot.rs:318-344 | distinct paths with ordinary component names keep their payloads apart |
| SnapshotRestore.RestoreExactly | crates/daemon/src/snapshot.rs:509-626 | restore succeeds if and only if the manifest is usable, all targets are managed, distinct, present and unlocked, the ETag is the primary target's, every payload has its digest and a valid mode, and no call fails |
| SnapshotRestore.FailedRestoreKeepsPrefix | crates/daemon/src/snapshot.rs:509-671 | a failed check leaves every target unchanged; a failed write leaves a prefix of the manifest replaced, each file whole |
| SnapshotRestore.RestoreInstalls | crates/daemon/src/snapshot.rs:592-626 | a successful restore gives every target, all managed, the bytes its digest vouches for and the recorded mode, and changes no other file |
| SnapshotRestore.LocksExactly | crates/daemon/src/snapshot.rs:543-573 | comparing neighbours after sorting rejects exactly the manifests that repeat a target; locking in that order succeeds exactly when all targets are available |
| Sorting.NeighboursFindDuplicates | crates/daemon/src/snapshot.rs:548-553 | for any total order, equal neighbours after sorting exist if and only if the list repeats an element |
| SnapshotStore.Store.Create | crates/daemon/src/snapshot.rs:265-281 | reads the requested files, then captures them; the new directories and the result are the specified effect |
| SnapshotStore.Store.CreateCapturedAt | crates/daemon/src/snapshot.rs:290-353 | the exclusive directory, the payloads in order and the manifest last: directories and result are the specified effect |
| SnapshotStore.Store.FillSnapshot | crates/daemon/src/snapshot.rs:317-344 | the write loop fills the fresh directory as specified, also when a write fails half-way |
| SnapshotStore.Store.List | crates/daemon/src/snapshot.rs:360-394 | the directory loop and the stable sort compute the specified newest-first listing or the first error |
| SnapshotStore.Store.Reap | crates/daemon/src/snapshot.rs:681-704 | the remaining directories and the count are the specified effect |
| SnapshotStore.Store.Restore | crates/daemon/src/snapshot.rs:509-626 | the transaction with its check, lock, verify and write loops changes the files and returns as specified |
| SnapshotHistory.UndoInstallsCaptured | crates/daemon/src/snapshot.rs:283-626 | over any run of captures with supplied rows, writes, deletions, restores and reaps, a restore that succeeds installs exactly those rows at managed paths and touches nothing else, collisions of flat names included |
| SnapshotHistory.UndoReturnsToSnapshot | crates/daemon/src/snapshot.rs:290-626 | a restore that succeeds returns every target to its bytes and mode at capture time if and only if the rows supplied were those |
| SnapshotHistory.CapturedIsRecorded | crates/daemon/src/snapshot.rs:265-281 | rows read from the files at capture time are those of the files |
| SnapshotHistory.CommitCanBeUndone | crates/daemon/src/interface.rs:752-768 | when no writer locked late, restoring the snapshot a commit's writer took brings back exactly the file, bytes and mode, that the commit replaced |
| SnapshotHistory.RestorableExactly | crates/daemon/src/snapshot.rs:290-626 | a snapshot of such a run can be restored if and only if its targets are managed, distinct, present and unlocked, the ETag is current, the supplied modes are octal and no flat name was reused for other content |
| SnapshotHistory.SnapshotsPersist | crates/daemon/src/snapshot.rs:312-315 | only a reap ever forgets a finished snapshot or changes its directory |
| SnapshotHistory.ReapInRun | crates/daemon/src/snapshot.rs:681-704 | after a reap during a run the listing is exactly what it is to keep |
| Retention.ReapKeepsNewest | crates/daemon/src/snapshot.rs:681-704 | exactly the first min(n, max(keep_count, number not older than the cutoff)) of the newest-first list remain, nothing else is removed, and the count is the number removed |
| Retention.ReapTouchesOnlyOld | crates/daemon/src/snapshot.rs:681-704 | whatever fails, a reap adds nothing and touches no snapshot but those beyond both limits |
| Retention.ListingExactly | crates/daemon/src/snapshot.rs:360-394 | a listing succeeds if and only if every manifest it meets is readable and of a known version; it then holds exactly their summaries, and otherwise reports the first obstacle |
| Retention.ReapTwice | crates/daemon/src/snapshot.rs:681-704 | reaping again with the same cutoff removes nothing, in whatever order the directories are returned and whatever calls fail |
| Retention.FreshIsPrefix | crates/daemon/src/snapshot.rs:690-697 | in a newest-first list the snapshots not older than the cutoff are exactly a prefix |
| Instants.TextOrderIsTimeOrder | crates/daemon/src/snapshot.rs:391-393 | comparing RFC 3339 timestamps as text compares the times, for four-digit years |
| Instants.Rfc3339Layout | crates/daemon/src/snapshot.rs:304-304 | the layout of a timestamp: fields of fixed width between their marks |
| BootOrder.EncodeBootOrder | crates/core/src/uefi_vars.rs:487-493 | the loop emits the little-endian bytes of every index in order |
| BootOrder.EncodedAt | crates/core/src/uefi_vars.rs:487-493 | index `k` lies at offset `2k`, low byte first |
| BootOrder.AttributesRoundTrip | crates/core/src/uefi_vars.rs:80-117 | attributes survive encoding; decoding keeps exactly the seven defined bits |
| BootOrder.ParseInvertsEncode | crates/core/src/uefi_vars.rs:367-383 | parsing an encoded order returns it, for every sequence of 16-bit indices |
| BootOrder.EncodeInvertsParse | crates/core/src/uefi_vars.rs:367-383 | a payload is parsed if and only if its length is even, and encoding the result returns the payload |
| BootOrder.MoveLaws | crates/core/src/uefi_vars.rs:326-345 | a move relocates one element to the clamped position, keeps the rest in order, and is undone by the opposite move |
| EfivarStore.EfivarFs.ReadGlobal | crates/daemon/src/uefi_vars_linux.rs:167-186 | the payload after the four attribute bytes, or an error for an absent or short file |
| EfivarStore.EfivarFs.WriteGlobal | crates/daemon/src/uefi_vars_linux.rs:119-149 | the file becomes attribute bytes then payload, nothing else changes; a refused write changes nothing, a torn one leaves less than the entry |
| EfivarStore.EfivarFs.DeleteGlobal | crates/daemon/src/uefi_vars_linux.rs:151-163 | removes the variable; an absent one is no error |
| EfivarStore.EfivarFs.SetBootOrder | crates/core/src/uefi_vars.rs:275-304 | the duplicate scan, the sorted comparison and the write give the specified store and result |
| EfivarStore.EfivarFs.MoveBootOrderEntry | crates/core/src/uefi_vars.rs:326-345 | read, move in place and set again: the specified store and result |
| EfivarStore.WrittenReadsBack | crates/daemon/src/uefi_vars_linux.rs:119-186 | a payload written behind any attribute prefix is read back unchanged |
| EfivarStore.CheckOrderExact | crates/core/src/uefi_vars.rs:280-301 | the set and sort checks accept exactly the permutations of a duplicate-free current order |
| EfivarStore.SetOrderExact | crates/core/src/uefi_vars.rs:275-304 | success if and only if the current order is readable and duplicate-free, the new one a permutation of it and the write done; then it is read back and no other variable changed; a failure that tears no write changes nothing |
| EfivarStore.MoveExact | crates/core/src/uefi_vars.rs:326-345 | a move succeeds if and only if its source exists in a readable duplicate-free order; the order read back is then the moved one |
| EfivarStore.SetNextExact | crates/core/src/uefi_vars.rs:225-248 | success if and only if the index is listed, or listing is not enforced, and the write is done; then that index is read back and nothing else changed |
| EfivarStore.WrittenFiles | crates/core/src/uefi_vars.rs:225-311 | the bytes of the files that a successful call leaves: attributes 7 in four bytes, then the payload, low bytes first |
| EfivarStore.IndexErrors | crates/core/src/uefi_vars.rs:225-345 | an index out of place, an unreadable order and a list that is no permutation give different errors |
| EfivarStore.ClearNextExact | crates/core/src/uefi_vars.rs:250-252 | fails only on a present variable; otherwise exactly `BootNext` is gone |
| EfivarStore.StepKeepsExactly | crates/core/src/uefi_vars.rs:225-345 | with `BootNext` absent or listed, a call keeps the order's multiset and that property if and only if it does not tear its write |
| EfivarStore.RunKeepsOrder | crates/core/src/uefi_vars.rs:225-345 | over any run of set, move, enforced set-next and clear-next calls, failing or not, that tears no write, the multiset of the order never changes and a `BootNext` that is absent or listed stays so |
| EfivarStore.RunKeepsExactly | crates/core/src/uefi_vars.rs:225-345 | every call of a run keeps them if and only if none tears its write |
| LoadOption.ParseBootEntry | crates/core/src/uefi_vars.rs:428-476 | the header and description loop computes the specified entry or error |
| LoadOption.DecodesExactly | crates/core/src/uefi_vars.rs:428-466 | decoding succeeds if and only if there are six header bytes and some aligned zero unit fits in the payload |
| LoadOption.Utf16RoundTrip | crates/core/src/uefi_vars.rs:468-468 | every Unicode text survives UTF-16 encoding and lossy decoding |
| LoadOption.LossyDecodes | crates/core/src/uefi_vars.rs:468-468 | lossy decoding replaces exactly the surrogates without a partner, one character for each |
| LoadOption.EntryRoundTrip | crates/core/src/uefi_vars.rs:428-476 | for any attributes, NUL-free description and tail, encoding then parsing returns the description and the active and hidden bits |
| BootEntries.ListBootEntries | crates/daemon/src/uefi_vars_linux.rs:219-244 | the loop and the stable sort compute the specified listing or the first error |
| BootEntries.ListingExactly | crates/daemon/src/uefi_vars_linux.rs:219-244 | the listing succeeds if and only if every variable named like a boot entry is readable and decodes; it then holds exactly those entries, each as often as its variable was returned, in index order |
| BootEntries.ListsIndicesOnce | crates/daemon/src/uefi_vars_linux.rs:219-244 | the listing is strictly increasing in index if and only if no two listed names stand for one index |
| BootEntries.StoredEntryIsListed | crates/daemon/src/uefi_vars_linux.rs:219-244 | a stored load option appears in the listing with its index, bits and description |
| BootEntries.NameRoundTrip | crates/daemon/src/uefi_vars_linux.rs:227-234 | the four-digit upper-case name of an index parses to that index |
| BootEntries.NamesExactly | crates/daemon/src/uefi_vars_linux.rs:227-234 | a name is listed if and only if it is `Boot` and four hexadecimal digits of either case, or a plus sign and three |
| BootEntries.CanonicalExactly | crates/daemon/src/uefi_vars_linux.rs:227-234 | of the names of an index, the firmware's own is the one whose four characters are digits as printed |
| BootEntries.SignedNamePasses | crates/daemon/src/uefi_vars_linux.rs:227-234 | a plus sign and any three hexadecimal digits pass the name test and give their value |
| Numerals.DigitsExactly | crates/daemon/src/uefi_vars_linux.rs:227-234 | which character is which digit, in both cases |
| BootEntries.LowerCaseIsASecondName | crates/daemon/src/uefi_vars_linux.rs:227-234 | two names whose digits differ only in case stand for one index |
| Lifecycle.ActivityTracker.Update | crates/daemon/src/lifecycle.rs:161-166 | state and published value both become the mutated state with the next generation |
| Lifecycle.ActivityTracker.BeginOperation | crates/daemon/src/lifecycle.rs:56-64 | counts one more operation and returns a live guard of this tracker |
| Lifecycle.OperationGuard.Drop | crates/daemon/src/lifecycle.rs:183-188 | the first drop ends the operation, any later one does nothing |
| Lifecycle.ChannelIsState | crates/daemon/src/lifecycle.rs:161-166 | in every interleaving the watched value equals the locked state whenever the mutex is free |
| Lifecycle.CounterIsGuards | crates/daemon/src/lifecycle.rs:56-101 | the counter, which `active_operations` returns, is the number of live guards at every point of a run if and only if there are never more than `usize::MAX` |
| Lifecycle.SaturationLosesAGuard | crates/daemon/src/lifecycle.rs:56-64 | after `usize::MAX` + 1 begins and one finish the counter is one too low |
| Lifecycle.CheckExactly | crates/daemon/src/lifecycle.rs:136-143 | the check after the timer returns if and only if nothing is published as active and the updates since the observation are a multiple of 2^64 |
| Lifecycle.TrafficRestartsTheWait | crates/daemon/src/lifecycle.rs:81-83 | recorded traffic makes a waiter whose timer has elapsed start again |
| Lifecycle.IdleSoundness | crates/daemon/src/lifecycle.rs:125-152 | a return after fewer than 2^64 updates has an observation at least the timeout back, and at every point from it on no update was published, nothing is active and at most one unpublished begin is alive |
| Lifecycle.NoGuardIsAlive | crates/daemon/src/lifecycle.rs:125-152 | without saturation no guard is alive when the waiter returns, except that of one operation that has not published yet |
| Lifecycle.ReturnsByCheck | crates/daemon/src/lifecycle.rs:125-152 | the waiter returns by the check after its timer and in no other way |
| Lifecycle.QuietWaiterReturns | crates/daemon/src/lifecycle.rs:125-152 | a waiter left alone for the timeout returns |
| Lifecycle.IdleWaiterReturns | crates/daemon/src/lifecycle.rs:125-152 | no wake-up is lost: from every reachable point, also while waiting for an operation to end, once none is published as active the waiter's own steps and one more timeout make it return |
| Lifecycle.ReturnsWhileBeginning | crates/daemon/src/lifecycle.rs:137-143 | the waiter can return while an operation has begun but not published |

## Left out

- D-Bus methods, Polkit, audit log and error mapping: plumbing around the modelled functions.
- SHA-256, JSON, ioctl immutability bits and fsync durability: foreign code, taken as an injective digest, a datatype and failing calls.
- Failsafe generation and `grub-mkconfig` after the rename: foreign calls that no longer change the configuration file.
- Symbolic links and `O_NOFOLLOW`: the modelled file system has none.
- Loader-entry parsing, kernel parameter lists and the title edit: `crates/core/src/backends` is not part of this model; the protocol leaves the transformation abstract.
- Lowercasing beyond ASCII in the loader key comparison: the two letters that lowercase into ASCII words are not in `default`.
- Names that are not valid UTF-8, and byte offsets inside multi-byte names: paths and variable names are sequences of characters.
- Restores as one writer of several files inside one interleaving: `SnapshotRestore` treats the other processes' locks as a parameter; in `FlockProtocol` each target is a file of its own, with an ETag for the primary one and none for the others.
- GUI, TUI, CLI and the mock backend: thin forwarding.
- FlockProtocol.GapFreeRunsAreSerial: assumes that only writers of this protocol write the file or change its mode, because an editor that ignores the lock defeats any such protocol.
- Instants.TextOrderIsTimeOrder: years above 9999 are excluded, because they print with a sign and more digits.
