# Verified model of beadle

beadle gives a coding agent a mailbox. Around the mailbox it edits files the user owns
(CLAUDE.md, .claude/settings.json), runs command pipelines triggered by mail, stores their
state, and reads and writes signed mail. This project models the parts of it whose
correctness spans several functions, several writes or several processes, and proves
what they keep. `dafny verify dfyconfig.toml` checks everything.

| file | what it models |
|---|---|
| Basics | the option type and operations on sequences that several files use |
| Lines, Fences, Imports, HostFile, Others | the CLAUDE.md import editor, from bytes to histories of edits by any tools, and what they leave of all other lines |
| JsonTokens, JsonGrammar, Settings, Permissions | settings.json as JSON tokens, the grammar its scanner accepts, the allow-list edit, and the two-file grant/revoke transaction |
| Enable, Recovery | enable and disable as interruptible runs over marker, import and rules, and what they give back |
| Intake, Executor | the email body as a pipeline takes it in; the executor, its snapshots and what it sends |
| Store, Saves, PruneLoop | saves beside pruning passes; who calls Save; starting and stopping the pruning goroutine |
| Text, StageInput | searching and trimming text; the STAGE INPUT block and its two readers |
| PgpMime, SignedBody | PGP/MIME composing and extracting (RFC 3156, RFC 2046 section 5.1.1); the body part that is signed |
| YamlEscape, ReplySubject | the chained YAML escapes; the idempotent reply subject |
| GpgVerdicts, ImapPaging, Contacts | key expiry and signature verdicts; mailbox pages; the address book |

Bytes and runes are `char`s, except in Intake and YamlEscape, which read UTF-8 from bytes.
Locked read-modify-writes and temp-file-and-rename writes are
single steps that happen, fail without effect, or are not reached because the process
died. What comes from outside (the planner, runners, gpg, the IMAP server's text matching,
`path.Match`) is a parameter of the model. `hide` statements only narrow what the verifier
looks at.

Where the code and its comments, or a standard it writes for, disagree, the code is
modelled:

- `ReplySubject` says that running its output through it again is a no-op. A subject such
  as `" re:x"`, which begins with a blank, is a counterexample
  (`LeadingBlankCounterexample`); `ReplyIdempotent` gives the exact condition.
- `escapeYAMLValue` and `escapeYAMLPipe` promise a double-quoted YAML scalar. They pass
  control characters other than NUL, CR, LF and TAB through raw, which section 7.3.1 of
  YAML 1.2.2 excludes, and bytes that are no UTF-8, which section 5.2 excludes: a subject
  that is one ESC (`ControlCounterexample`) or one byte 0xE9 (`RawByteCounterexample`)
  gives no scalar. `ScalarsDecode` says exactly when the output decodes.
- The comment on `recencySet` promises the last `count` messages. With more than 2147483647
  asked for and present, the oldest ones are missing (`RecencyCounterexample`);
  `RecencyIsWindow` gives the exact condition.
- The comment on `permissions.Preflight` says that it reports whether `Grant` would be
  refused, and `enableLocked` that a refusal fails enable with nothing changed. Without a
  settings file the preflight returns before it reads the record, so a damaged record passes
  (`PreflightCounterexample`) and the grant is refused after guide and import are in place
  (`RefusedEnable`). `PreflightExact` gives the exact condition.
- The comment on `Prune` calls it safe beside `Save`, and that on `tmpFileMaxAge` takes an
  old temporary file for one whose process died. A pass that condemned the file of an
  earlier failed write can remove it once a new save of the same pipeline has begun to
  refill it, and that save is lost (`SaveCanBeLost`). `SaveLands` says exactly when, and
  `TimelySaveLands` when the age limit is guard enough.

`extractEncryptedPayload` does not promise the composed ciphertext byte for byte, and does
not always return it: `EncryptedRoundTrip` says that it does exactly when the trimmed
ciphertext is not empty, has a begin marker, and either begins with that marker and ends
with the first end marker or has no end marker behind the begin marker.
`TextBeforeArmorCounterexample` is a ciphertext with text in front of its armor.

## Model

| member | source | states |
|---|---|---|
| Lines.SplitKeepEnds | internal/claudemd/imports.go:333-351 | the splitting loops lose no byte and give lines in normal form |
| Lines.TrimTerminator | internal/claudemd/imports.go:326-328 | trimming by cutset takes exactly the terminator off a line |
| Lines.SplitJoinExact | internal/claudemd/imports.go:330-351 | a list of lines survives a write and a re-read exactly when it is in normal form |
| Lines.ResplitFuses | internal/claudemd/imports.go:174-192 | re-reading surviving lines fuses each lone CR with a bare LF after it, and does nothing else |
| Fences.FenceExact | internal/claudemd/imports.go:257-276 | a line is a delimiter of n times c exactly when it is at most three blanks and then a run of n, at least three, backticks or tildes |
| Fences.ClosesExact | internal/claudemd/imports.go:230-249 | one delimiter closes another exactly when it has the same character and is no shorter |
| Fences.IndentedExact | internal/claudemd/imports.go:278-285 | a line is indented code exactly when it begins with a tab or four blanks |
| Fences.PairedUnique | internal/claudemd/imports.go:230-249 | there is one pairing of delimiters, each opener with the first line behind it that closes it |
| Fences.FencedRanges | internal/claudemd/imports.go:230-249 | the ranges are the paired delimiters, and cover exactly the lines inside; an opener that is never closed delimits nothing |
| Fences.InsideLines | internal/claudemd/imports.go:207-213 | the lines marked inside are those after an opener up to its closer |
| Fences.ScanRemove | internal/claudemd/imports.go:174-220 | dropping matching lines changes no other line's status, dangling fences included |
| Fences.ScanFuse | internal/claudemd/imports.go:174-220 | fusing a lone CR with a bare LF changes no other line's status |
| Fences.ScanAppend | internal/claudemd/imports.go:51-54 | a line appended at column 0 is top level whatever opener dangles above it |
| Fences.ScanBodies | internal/claudemd/imports.go:202-213 | a line's status depends on line bodies only |
| Imports.ImportExact | internal/claudemd/imports.go:146-160 | the lines accepted are those not blank, equal to themselves trimmed, on one line and starting with @ |
| Imports.PruneSurvivors | internal/claudemd/imports.go:104-141 | a pruned file re-reads as the surviving lines, each with its old status, up to CR/LF fusion |
| Imports.PruneImports | internal/claudemd/imports.go:79-85 | after Prune and a re-read the line is gone and the other imports stand in order |
| Imports.PruneTwice | internal/claudemd/imports.go:79-85 | a second Prune changes no byte |
| Imports.PruneAbsent | internal/claudemd/imports.go:116-118 | pruning a line that is not imported changes no byte |
| Imports.RegisterImports | internal/claudemd/imports.go:55-77 | after Register and a re-read the line is imported last, or nothing changed; no other import moves |
| Imports.RegisterTwice | internal/claudemd/imports.go:41-43 | Register is idempotent |
| Imports.RegisterSplit | internal/claudemd/imports.go:290-308 | the appended text re-reads as the old lines, the last one terminated, and the new line |
| Imports.RegisterBytes | internal/claudemd/imports.go:287-324 | what is appended, byte for byte: the line in the terminator of the first terminated line, which also closes an unterminated last line |
| Imports.RoundTrip | internal/claudemd/imports.go:12-17 | Register then Prune returns the bytes, or the bytes and one host EOL; the bytes exactly when the file is empty or terminated |
| HostFile.HistoryRefines | internal/claudemd/imports.go:452-455 | any history of locked edits by any tools, failed writes included, acts on the file as on a list of imports |
| HostFile.LastOperationDecides | internal/claudemd/imports.go:55-141 | a line is imported exactly when the last effective operation on it registered it, or it was there and untouched |
| HostFile.DeletedExact | internal/claudemd/imports.go:87-141 | a file is deleted exactly by a discarding prune that goes through on a regular file made of nothing but copies of the line |
| Others.HistoryPreservesOthers | internal/claudemd/imports.go:1-17 | over every history each line that is no import keeps its place, text and status, up to CR/LF fusion and a last terminator |
| Others.HistoryKeepsBytes | internal/claudemd/imports.go:1-17 | without a lone CR in the file every terminated line that is no import stays byte for byte |
| HostFile.TopLevelLines | internal/claudemd/imports.go:202-220 | the scan visits exactly the lines that no paired delimiters enclose and that begin with neither a tab nor four blanks |
| HostFile.Present | internal/claudemd/imports.go:162-170 | present reports exactly whether the line is imported |
| HostFile.Remove | internal/claudemd/imports.go:174-192 | remove keeps exactly the lines that do not match at top level |
| HostFile.ClaudeMd.Register | internal/claudemd/imports.go:55-77 | the file after the call, for valid and invalid lines and failing writes |
| HostFile.ClaudeMd.Prune | internal/claudemd/imports.go:104-141 | the file after the call; a file is deleted only when emptied, regular and asked for |
| JsonTokens.ValueInside | internal/permissions/permissions.go:408-440 | a value scans the same inside open brackets as alone |
| JsonTokens.ObjectRoundTrip | internal/permissions/permissions.go:408-459 | parseObject undoes encodeObject |
| JsonTokens.EncodeUndoesParse | internal/permissions/permissions.go:20-22 | encoding a parsed object reproduces it token for token, key spelling aside |
| JsonTokens.ObjectIsValue | internal/permissions/permissions.go:442-459 | an encoded object is one JSON value |
| JsonTokens.ArrayRoundTrip | internal/permissions/permissions.go:304-341 | a rebuilt list parses back to its entries |
| JsonTokens.ParseObjectLoop | internal/permissions/permissions.go:408-440 | the decoder loop computes the recursive parse, errors included |
| JsonTokens.EncodeObjectLoop | internal/permissions/permissions.go:442-459 | the encoder loop writes the recursive text |
| JsonGrammar.ValueIsGrammar | internal/permissions/permissions.go:406-440 | the scanner accepts exactly the texts of well-formed JSON values |
| JsonGrammar.ObjectExact | internal/permissions/permissions.go:406-440 | parseObject succeeds exactly on the texts of objects and gives their members, each value token for token |
| JsonGrammar.ArrayExact | internal/permissions/permissions.go:301-307 | the allow list parses exactly on the texts of arrays, into their entries |
| Settings.FindKey | internal/permissions/permissions.go:382-394 | the key's index, absence, or refusal when it is duplicated |
| Settings.SetKey | internal/permissions/permissions.go:396-404 | the value is overwritten in place when the key is there |
| Settings.AddRules | internal/permissions/permissions.go:311-322 | the loop appends exactly the missing rules, in order |
| Settings.DropRules | internal/permissions/permissions.go:323-334 | the loop keeps every unlisted entry and reports each removed rule once |
| Settings.MissingExact | internal/permissions/permissions.go:311-322 | exactly the absent rules are appended, after which none is absent |
| Settings.MissingOrder | internal/permissions/permissions.go:311-322 | the appended rules keep the order of the fixed set and none comes twice |
| Settings.RemovedOrder | internal/permissions/permissions.go:323-334 | the removed rules are reported in the order of the list and none twice |
| Settings.ReadForm | internal/permissions/permissions.go:276-307 | reading finds the entries of the allow list in the permissions object |
| Settings.ReadNone | internal/permissions/permissions.go:276-307 | without such an object, or such a list in it, the list is empty |
| Settings.ReadRefuses | internal/permissions/permissions.go:276-307 | a duplicated key on the way to the list, or a value of another kind, is refused |
| Settings.ReadWrite | internal/permissions/permissions.go:276-355 | the written file reads back as the document with just the allow list replaced |
| Settings.PlanPreserves | internal/permissions/permissions.go:272-355 | an edit leaves every other member token for token in order, and the same edit again changes nothing |
| Permissions.ClaudeDir.GrantRules | internal/permissions/permissions.go:187-235 | record, settings and answer after a grant under every fate of its three writes |
| Permissions.ClaudeDir.WithdrawRules | internal/permissions/permissions.go:187-254 | settings, record and answer after a removal under every fate of its two writes |
| Permissions.GrantOutcome | internal/permissions/permissions.go:216-235 | whatever fails, either nothing landed or the new list landed with its rules recorded |
| Permissions.GrantFates | internal/permissions/permissions.go:216-235 | a grant succeeds exactly when nothing is due or both writes land, after which every rule is allowed; one that fails leaves settings as they were, and the record too unless restoring it failed |
| Permissions.WithdrawOutcome | internal/permissions/permissions.go:236-254 | the record shrinks and success is reported only once the rules are out of settings |
| Permissions.WithdrawRecord | internal/permissions/permissions.go:247-253 | after a removal that succeeds exactly the recorded rules it did not take are still recorded, and an emptied record is no file |
| Permissions.RevokeEmptiesRecord | internal/permissions/permissions.go:84-89 | a Revoke that succeeds leaves no record of rules of the fixed set |
| Permissions.WithdrawFates | internal/permissions/permissions.go:236-254 | a removal succeeds exactly when the writes it needs land, and reports exactly the taken rules that were allowed; when the settings write fails nothing changed |
| Permissions.NoSettings | internal/permissions/permissions.go:84-89 | a repository without a settings file is left untouched by a removal |
| Permissions.RefusedExact | internal/permissions/permissions.go:187-209 | a grant and a removal are refused exactly for an unreadable settings file or a damaged record, and write nothing then |
| Permissions.PreflightExact | internal/permissions/permissions.go:101-131 | the preflight foretells a refusal exactly when it is not the case that settings are absent and the record is damaged |
| Permissions.PreflightCounterexample | internal/permissions/permissions.go:101-131 | no settings file and a damaged record: the preflight passes and the grant is refused |
| Permissions.CrashSafety | internal/permissions/permissions.go:181-254 | over every history each rule beadle added and has not removed is recorded; the user's entries and the rest of the file stand |
| Permissions.RevokeRestores | internal/permissions/permissions.go:84-89 | after every history a Revoke that reports success leaves the original allow list, as a sequence |
| Permissions.RollbackUndoesGrant | internal/permissions/permissions.go:91-99 | removing what a grant reported gives back the list it found |
| Permissions.StrayRulesReported | internal/permissions/permissions.go:84-89 | without a record a Revoke writes nothing and reports exactly the allowed members of the fixed set |
| Permissions.UnreadableUntouched | internal/permissions/permissions.go:256-264 | a file that cannot be read is never edited by any history |
| Enable.MarkerImpliesImport | internal/enable/enable.go:67-198 | in every reachable state, with failures, crashes and other tools between steps, a marker stands beside its import |
| Enable.DisableRevokes | internal/enable/enable.go:149-180 | once disable has cleared the marker no rule of ours recorded at its start is allowed |
| Enable.FailedEnableRestores | internal/enable/enable.go:114-123 | a failed marker write with a successful rollback leaves the allow list of the run's start |
| Recovery.EnableThenDisable | internal/enable/enable.go:52-198 | enable turns everything on; disable gives back list and settings, leaves no record, and gives back CLAUDE.md but for a last terminator, an empty regular file being removed |
| Recovery.FailedMarkerUndone | internal/enable/enable.go:101-125 | over the whole run: when everything up to the marker succeeds, the marker write fails and the rollback can write, allow list and settings are what they were, and the record keeps exactly the rules this run did not grant |
| Recovery.MarkerMeansAll | internal/enable/enable.go:67-127 | a run whose marker lands has deposited the guide, registered the import and allowed every rule |
| Recovery.StopsEarly | internal/enable/enable.go:67-112 | a run that stops before its marker leaves marker and settings as they were and just what its finished steps did |
| Recovery.RefusedEnable | internal/enable/enable.go:67-112 | what a refused enable leaves: nothing changed, unless settings are absent and the record is damaged; then guide and import are in place |
| Recovery.DisableStops | internal/enable/enable.go:149-180 | a disable that cannot revoke leaves the repository enabled; one that cannot clear the marker leaves the import |
| Recovery.HostBackExact | internal/claudemd/imports.go:87-141 | exactly when CLAUDE.md is the very file it was |
| Recovery.DisableRecovers | internal/enable/enable.go:133-198 | from every state of every execution one disable that goes through restores the allow list and settings, empties the record when there are settings, and removes the import |
| Recovery.OthersUndisturbed | internal/enable/enable.go:52-198 | no execution disturbs a line of CLAUDE.md that is no import |
| Enable.Repository.EnableLocked | internal/enable/enable.go:67-127 | the ordered writes with early returns are a run of the step machine; it reports success exactly when every step of it succeeded |
| Enable.Repository.DisableLocked | internal/enable/enable.go:149-198 | the ordered removals with early returns are a run of the step machine; it reports success exactly when every step of it succeeded |
| Intake.RuneExact | internal/daemon/pipeline.go:502-506 | a text begins with a rune of n bytes exactly when it begins with the n bytes that encode a Unicode scalar value (RFC 3629) |
| Intake.SpaceExact | internal/daemon/pipeline.go:97-101 | a text begins with white space exactly when it begins with the encoding of a white-space code point |
| Intake.NulDropped | internal/daemon/pipeline.go:502-506 | a NUL anywhere makes no difference to the sanitized text |
| Intake.RunsReplaced | internal/daemon/pipeline.go:502-506 | valid text stays and each run of bytes that belong to no rune becomes one U+FFFD |
| Intake.SanitizeExact | internal/daemon/pipeline.go:502-506 | the result is valid UTF-8 without NULs, the change is reported exactly when the input was not, and a second pass changes nothing |
| Intake.CapExact | internal/daemon/pipeline.go:517-522 | the first runes are kept, the cut is reported exactly when there were more, and a second cap changes nothing |
| Intake.TakeExact | internal/daemon/pipeline.go:103-108 | the stored body is valid, capped, a prefix of the sanitized body, with exact flags |
| Intake.NoBodyExact | internal/daemon/pipeline.go:84-106 | there is no body text exactly when the body is blank or made of NULs |
| Executor.FeedIsLatest | internal/daemon/pipeline.go:203-270 | the pair on the pipe is the output of the latest earlier process-mode stage, or the metadata |
| Executor.StageInputs | internal/daemon/pipeline.go:203-305 | every runner call gets exactly that pair; the reply and the apology go to the sender; the reply gets the notice exactly when the flag is set |
| Executor.SavesLegal | internal/daemon/pipeline.go:74-312 | running snapshots, then one terminal; stage and results only grow; the failure handler runs once on failure, never on completion; completion exactly when every stage succeeds |
| Executor.ErrorExact | internal/daemon/pipeline.go:74-312 | a run ends with an error exactly when that error explains it: the first call, schema or stage at fault, and why |
| Executor.CallsCounted | internal/daemon/pipeline.go:216-312 | every stage up to the one at fault is called once, then one reply or one apology exactly when it is registered, takes the address and has a runner |
| Executor.ResultsAreAnswers | internal/daemon/pipeline.go:216-305 | the results are the answers of the stages that succeeded, in order |
| Executor.RepliedResults | internal/daemon/pipeline.go:272-305 | a completed run has the stage answers and then, exactly when the reply can be sent and its runner answers, that answer |
| Executor.FinalExact | internal/daemon/pipeline.go:74-312 | status, plan, write set, stage index and number of results of the final record in every exit |
| Executor.SavesExact | internal/daemon/pipeline.go:74-312 | the start, two snapshots for each stage that goes through, one more before a stage at fault, and the final record are saved, and no others |
| Executor.BodyCarried | internal/daemon/pipeline.go:110-168 | every snapshot carries the body as taken in and, once planned, the plan's calls and write set |
| Executor.Executor.UnionWriteSets | internal/daemon/pipeline.go:557-575 | the loop collects the commands' write sets without repetition |
| Executor.Executor.RunStage | internal/daemon/pipeline.go:216-270 | one turn of the stage loop in all its exits |
| Executor.Executor.Stages | internal/daemon/pipeline.go:216-270 | the loop stops at the first failing stage and equals the fold |
| Executor.Executor.Run | internal/daemon/pipeline.go:74-312 | result, snapshots, runner calls and failure replies equal the closed form over all exits |
| Executor.Executor.FireElse | internal/daemon/pipeline.go:596-640 | marks failed, saves, and apologizes when a reply is possible |
| Executor.Executor.Reply | internal/daemon/pipeline.go:272-312 | the automatic reply and its non-fatal failures |
| Store.RecordsComplete | internal/daemon/persist.go:66-95 | in every interleaving a stored record is a complete snapshot from one save of its pipeline |
| Store.OnlyOldEndedRecordsGo | internal/daemon/persist.go:216-247 | the record a pass removes, not just the one it read, is terminal and past the cutoff |
| Store.InspectedGoes | internal/daemon/persist.go:216-280 | a pass that inspects an ended record past the cutoff, or a temporary file of at least five minutes, and goes on to its removal removes it, whatever runs in between |
| Store.SweepTakesDue | internal/daemon/persist.go:174-204 | a pass that runs through its list leaves no file that was due when it began: each has been gone by then, a temporary file unless a save took it up again |
| Store.PassGoesOn | internal/daemon/persist.go:174-204 | a pass with work left can go on, each of its steps leaves less, and only its end or a crash takes it away |
| Store.FailedSaveExact | internal/daemon/persist.go:83-95 | a save that fails changes no record and takes its temporary file with it when it can clean up |
| Store.TerminalStays | internal/daemon/persist.go:66-95 | a terminal record is never replaced by a running one |
| Store.SaveLands | internal/daemon/persist.go:83-95 | in every interleaving a save becomes the record exactly when no pass removes its temporary file on the way; otherwise the directory stays as it was |
| Store.TimelySaveLands | internal/daemon/persist.go:139-165 | a save lands when no pass had condemned its temporary file before and none looks at it past the age limit |
| Store.SaveCanBeLost | internal/daemon/persist.go:139-165 | an execution in which a pass removes the temporary file a new save is refilling |
| Saves.OnlyLastEnds | internal/daemon/pipeline.go:110-312 | only the last snapshot a run saves is terminal |
| Saves.DrivenIsExecution | internal/daemon/pipeline.go:110-312 | whatever runs save, and the sweep of cmd/beadle-daemon/main.go:203-223 after a crash, meets the store's assumptions in every interleaving |
| PruneLoop.AtMostOne | internal/daemon/persist.go:302-356 | at most one pruning goroutine; outside critical sections the wait count is one exactly while a channel is held |
| PruneLoop.StopIsClean | internal/daemon/persist.go:332-356 | StopPruning returns with no goroutine left; no channel closes twice; no Add meets a Wait |
| PruneLoop.StartRuns | internal/daemon/persist.go:302-330 | StartPruning returns with one goroutine running that nothing has told to exit; a second call leaves it and its channel alone |
| PruneLoop.RunsUntilStopped | internal/daemon/persist.go:318-356 | a goroutine ends only after its own channel is closed, which only a StopPruning that holds the mutex does |
| PruneLoop.NeverStuck | internal/daemon/persist.go:283-288 | while the mutex is held its holder can go on, or a goroutine it waits for can exit |
| PruneLoop.HeldIsReleased | internal/daemon/persist.go:302-356 | each step of the holder or a goroutine brings the release of the mutex nearer and no other step puts it off |
| StageInput.PayloadLaidOut | internal/daemon/pipeline.go:422-480 | the block as it is laid out: the fenced arguments or their marker, the output and the body, one under the other |
| StageInput.FenceRead | internal/daemon/pipeline.go:465-480 | a fenced field reads back with its name, value and flags |
| StageInput.PayloadRead | internal/daemon/pipeline.go:422-480 | both readers recover the payload: by count always, by end lines when the nonce is in no value |
| StageInput.ReadersAgree | internal/daemon/templates.go:339-343 | the two readers agree whenever the nonce is in no value |
| SignedBody.ComposeSignedRaw | internal/email/send.go:124-188 | canonical text, body part, signature and message, or a refusal |
| SignedBody.CanonicalExact | internal/email/send.go:145-147 | every LF follows a CR, a text is canonical exactly when that holds of it, and its lines are kept |
| SignedBody.BuildMixed | internal/email/send.go:193-263 | the multipart/mixed part written attachment by attachment, or a refusal |
| SignedBody.ChunksExact | internal/email/send.go:241-250 | base64 lines hold 76 characters, the last one perhaps fewer and none zero, and nothing is lost |
| SignedBody.AttachmentHeadersRead | internal/email/send.go:226-236 | the header lines of an attachment read back as its disposition, base64 and its type |
| SignedBody.TextHeadersRead | internal/email/send.go:138-145 | the header lines of the text read back, with attachments and without |
| SignedBody.MixedRoundTrip | internal/email/send.go:193-263 | the part reads back as the canonical text and every encoded attachment, in order |
| SignedBody.SignedMessageRead | internal/email/send.go:124-188 | extraction gives the signed bytes, and from them the text and the attachments |
| PgpMime.WriteSigned | internal/email/send.go:163-188 | the message written piece by piece, or a refusal of line breaks in headers |
| PgpMime.HeadersRead | internal/email/send.go:163-177 | the header lines of both kinds of message read back as the caller gave them, with the type and boundary; none can start a line of its own |
| PgpMime.SplitUndoesJoin | internal/pgp/verify.go:145-147 | splitting at a delimiter that occurs in no piece gives the pieces back |
| PgpMime.SplitOnSound | internal/pgp/verify.go:145-147 | every text is its pieces joined, and no piece contains the separator |
| PgpMime.SignedRoundTrip | internal/pgp/verify.go:134-187 | extraction returns byte for byte the part that was signed and the trimmed signature |
| PgpMime.PayloadExact | internal/pgp/verify.go:163-172 | the payload of a part is the trimmed text behind its first blank line, in CRLF or, without one of those, in LF |
| PgpMime.AttachedKeyRead | internal/pgp/verify.go:134-187 | any message of signed form gives back signed part, signature and the key of the last part that carries one |
| PgpMime.NoKeyRead | internal/pgp/verify.go:134-187 | without such a part no key is given |
| PgpMime.SignedRefused | internal/pgp/verify.go:125-172 | refused exactly for another type, no boundary, fewer than three pieces, or a signature part without a blank line |
| PgpMime.EncryptedParts | internal/pgp/decrypt.go:126-158 | another type, no boundary or fewer than three pieces is refused; otherwise the armor is looked for in the payload of the third piece, all of it without a blank line |
| PgpMime.ArmorExact | internal/pgp/decrypt.go:155-178 | exactly the block from the first begin to the first end marker is taken from the text around it; no begin marker goes to the multipart reader, an empty payload is an error |
| PgpMime.EncryptedComesBack | internal/pgp/decrypt.go:135-158 | the payload of the second part is the trimmed ciphertext |
| PgpMime.EncryptedRoundTrip | internal/pgp/decrypt.go:159-174 | exactly when the trimmed ciphertext is recovered as composed |
| PgpMime.TextBeforeArmorCounterexample | internal/pgp/decrypt.go:165-171 | a composed ciphertext with text before its armor is not recovered |
| YamlEscape.PassesAreOne | internal/daemon/mission.go:106-114 | the five replacements escape each byte exactly once |
| YamlEscape.EscapeValid | internal/daemon/mission.go:106-114 | the escaped text is valid UTF-8 exactly when the text is |
| YamlEscape.ScalarsDecode | internal/daemon/mission.go:77-114 | decoding gives the text without NULs, the first 500 runes of it for a value, exactly when that is valid UTF-8 without another raw control character; otherwise the output is no scalar |
| YamlEscape.RawByteCounterexample | internal/daemon/mission.go:77-114 | a subject that is one byte 0xE9 is not decoded |
| YamlEscape.ControlCounterexample | internal/daemon/mission.go:77-114 | a subject that is one ESC is not decoded |
| YamlEscape.ScalarsStayClosed | internal/daemon/mission.go:77-114 | no raw CR, LF or TAB in the output and every inner quote escaped |
| ReplySubject.PrefixExact | internal/email/repotag.go:97-99 | what stands before the tag is the longest start made of re, fwd and fw markers, each with its blanks |
| ReplySubject.ReMarkedExact | internal/email/reply.go:87-90 | a subject is a reply exactly when it is blanks, re in any case, blanks and a colon |
| ReplySubject.TaggedExact | internal/email/repotag.go:129-166 | a tag counts exactly when both slugs are well formed and the owners agree in any case |
| ReplySubject.ReplyExact | internal/email/repotag.go:106-116 | the reply keeps the subject, behind a Re: when it has none, with the tag between markers and rest unless one of this owner stands there |
| ReplySubject.ReplyIdempotent | internal/email/reply.go:92-103 | replying twice changes nothing exactly under a condition on slug and subject |
| ReplySubject.LeadingBlankCounterexample | internal/email/reply.go:92-103 | a concrete subject on which the documented no-op fails |
| ReplySubject.SelfTagExact | internal/email/repotag.go:129-166 | a new tag is recognised exactly when the slug is well formed and no bracket ends it early |
| ReplySubject.OneTag | internal/email/repotag.go:97-116 | after the markers stand the tags there were, or exactly one |
| GpgVerdicts.SplitAtExact | internal/pgp/expiry.go:186-187 | the fields of a text are the one list without the separator that joins to it |
| GpgVerdicts.RecordExact | internal/pgp/expiry.go:192-224 | which records count and where their expiry stands, field by field |
| GpgVerdicts.ParseExact | internal/pgp/expiry.go:241-245 | a printed number, with a sign or without, is read back exactly when it fits 64 bits |
| GpgVerdicts.ParseRefuses | internal/pgp/expiry.go:241-245 | nothing but an optional sign and digits is read |
| GpgVerdicts.KeywordExact | internal/daemon/signature.go:345-353 | the keyword of a status line is its first field behind the prefix |
| GpgVerdicts.ParseColonExpiry | internal/pgp/expiry.go:180-234 | the scan with early exits accepts exactly the specified keys, and otherwise the finding is that of the first bad record, or of the whole list |
| GpgVerdicts.ExpiryOrderFree | internal/pgp/expiry.go:180-234 | acceptance does not depend on the order of records |
| GpgVerdicts.ExpiryDownwardClosed | internal/pgp/expiry.go:236-250 | a key accepted now was accepted earlier |
| GpgVerdicts.ClassifyStatusLines | internal/daemon/signature.go:342-384 | good exactly with GOODSIG and without NO_PUBKEY; otherwise the reason by precedence |
| GpgVerdicts.VerdictOrderFree | internal/daemon/signature.go:342-384 | the verdict does not depend on the order of status lines |
| ImapPaging.WindowExact | internal/email/imap.go:372-387 | a page leaves out the newest offset elements and holds the count newest of the rest, in order |
| ImapPaging.PagesPartition | internal/email/imap.go:372-387 | pages at offsets 0, count, 2 count and on are the match list, in order |
| ImapPaging.RecencyIsWindow | internal/email/imap.go:358-370 | exactly when the recency set is the newest window |
| ImapPaging.RecencyCounterexample | internal/email/imap.go:356-370 | a mailbox and count of 2147483648 whose listing is not the window |
| ImapPaging.CriteriaMeanQuery | internal/email/imap.go:389-430 | the criteria select exactly what the query wants |
| ImapPaging.ListingIsWindow | internal/email/imap.go:277-297 | when the server answers, either path lists the window of the wanted messages |
| ImapPaging.FailedSearch | internal/email/imap.go:302-333 | what is listed when the search fails: the newest messages, or for unread mail one more search without the repository, or nothing |
| ImapPaging.TotalsExact | internal/email/imap.go:277-333 | the total counts the messages paged through; a listing is degraded, or fails, exactly in the stated cases |
| ImapPaging.UnreadOnlyStaysUnread | internal/email/imap.go:302-333 | no path of an unread-only query lists a read message |
| Contacts.CheckNameConflict | internal/contacts/contacts.go:162-179 | a conflict is reported exactly when a name is shared |
| Contacts.BookStaysSound | internal/contacts/store.go:80-121 | over every history of Add and Remove names stay disjoint and contacts valid |
| Contacts.NeverAmbiguous | internal/contacts/contacts.go:110-129 | in every reachable store no token is ambiguous |
| Contacts.ResolveExact | internal/contacts/contacts.go:110-129 | in every reachable store a word resolves exactly to the contact it is a name of, an address to itself |
| Contacts.AddExact | internal/contacts/store.go:80-102 | what a contact has to be to be added, and that the book then gains its trimmed form at the end |
| Contacts.AddedResolves | internal/contacts/store.go:80-102 | an added contact resolves under its trimmed name and each trimmed alias |
| Contacts.RemoveUndoesAdd | internal/contacts/store.go:80-121 | removing the contact just added gives back the book |
| Contacts.RemoveExact | internal/contacts/store.go:105-121 | the first contact of that name goes and the others stay in order; without one the book stays |
| Contacts.FindByAddress | internal/contacts/store.go:138-175 | the first exact match, else the first of the longest matching patterns |
| Contacts.BestIsUnique | internal/contacts/store.go:127-137 | the lookup rule determines its answer |
| Contacts.PatternsGrantNoAuthority | internal/contacts/permissions.go:75-89 | a sender found only by a pattern never may write or execute |
| Contacts.ParseUndoesShow | internal/contacts/permissions.go:17-70 | parsing undoes printing of permissions |
| Contacts.ParseExact | internal/contacts/permissions.go:17-70 | exactly the printed forms, in any case, are parsed |
| Contacts.CheckExact | internal/contacts/permissions.go:75-89 | a permission is granted exactly when a well-formed entry of the identity grants it |
| Contacts.Store.AddContact | internal/contacts/store.go:80-102 | the book in memory after Add, whether or not the write succeeds |
| Contacts.Store.RemoveContact | internal/contacts/store.go:105-121 | the book after Remove: the first contact of that name is gone |

## Left out

- Network and process I/O: IMAP, SMTP, Resend, gpg, git, ethos and claude calls; their answers are arbitrary inputs.
- Paths, symlink resolution, file modes, os.Root confinement and the flock itself; the home-directory refusal of the permissions package is one of the refusals not modelled.
- The byte level of settings.json: white space, string and number spelling inside a token, UTF-8 validity, and json.Indent, which changes no token. The record file is a list of strings.
- The guide's content, progress messages, log lines and error texts.
- Edits of CLAUDE.md by hand that remove or fence beadle's import line beside a marker: other tools register and prune only their own lines, under the lock.
- Edits of settings.json by other programs between beadle's own transactions: the histories start without a record and have no outside edits.
- The persisted JSON of a pipeline, its identifier, creation time and email metadata; runners are functions of their call.
- `Store` takes one save at a time per pipeline, as one executor makes them; the age limit of temporary files is in seconds.
- MIME and RFC 822 header parsing: extraction takes the media type and boundary as parsed. Base64 and the header value made of an attachment's name are opaque; an encryption is any ciphertext.
- The multipart reader that `extractEncryptedPayload` falls back to when there is no begin marker.
- Unicode: case folding is ASCII in contacts and in the owner comparison of reply subjects, and white space is ASCII in contacts, imports, trims and status lines; an import line padded with other Unicode white space is refused by the source and allowed here.
- `countOwnerKeyMatches`, `DedupUIDs`, `parseMissionID`, quoting of reply bodies and reference chains are not modelled.
- Flags changing on the IMAP server between a search and the fetch that follows.
- `Contacts` does not model Load from a file edited by hand, which bypasses validation.
