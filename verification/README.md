# applets, modelled in Dafny

The applets are small Python helpers for i3, sway and a Linux desktop tray. This project models the logic at their core and proves properties of it:

- **i3/sway IPC framing.** The `i3-ipc` framing of the three IPC clients: the `pack`/`unpack` codecs, the `read` loops and the Python 2 `_pack`/`_unpack`.
- **Container-tree searches** of `sway_ipc.py` and `zoom_bar_d.py`.
- **Zoom marking.** The `*Z` marking of zoomed workspaces in `zoom_bar_d.py` and in the i3 daemon.
- **The i3 daemon's logic.** Its workspace creation and renaming, its dmenu action menu, and its FIFO command dispatch.
- **The sway workspace restorer.** Rect scaling, launch commands, parent links, and the traversal that launches and focuses saved applications.
- **The reminder's timer.** Timer start, saving and loading, and countdown.
- **The keyboard tray.** XKB group-name parsing, group switching and the labels drawn.
- **The webcam parsers.** The `v4l2-ctl` output parsers and the exported script.
- **The volume tray.** Profile introspection, the profile switch, the volume and icon logic, media keys, notifications and the profile menu.
- **The power applet.** Backlight percentages, the UPower tables, battery icons, device sorting and the device menu.
- **Hot corners.** The classification of right-button releases into screen strips.
- **Bar on mouse.** The Num Lock state machine that shows and hides i3bar.

Sockets, subprocesses, files, D-Bus, X11 and clocks do not appear as effects. Each is a parameter (a byte stream with the sizes `recv` returns, an oracle reply, the current instant) or an output (the commands sent, the key events faked).

Each module follows one program:

- `Bytes`, `Utf8`, `Text`, `Dicts` and `Pattern` hold the Python primitives the programs rely on: `struct`, UTF-8 codecs, `str` methods, dicts in insertion order, and the regular expressions used.
- `Frame` and `Transport` cover the IPC clients.
- `ConTree` and `Workspaces` hold the tree searches.
- `Zoom` and `Daemon` cover `i3patch`.
- `Restore` covers `sway_restore_workspace/srws.py`.
- The remaining modules each follow one applet: `Reminder`, `Keyboard`, `Webcam`, `Volume`, `Power`, `HotCorners` and `BarMouse`.

## Model

| member | source | states |
|---|---|---|
| Frame.FromCodeOfCode | sway_restore_workspace/sway_ipc.py:16-30 | every message type is recovered from its wire value, so the codes are distinct |
| Frame.FromCodeDefined | sway_restore_workspace/sway_ipc.py:16-30 | a number names a message type exactly when it is one of the thirteen listed codes |
| Frame.MagicIsUtf8 | sway_restore_workspace/sway_ipc.py:9-11 | the six magic bytes are the UTF-8 encoding of `i3-ipc`, so the header is 14 bytes |
| Frame.Pack | sway_restore_workspace/sway_ipc.py:49-52 | a frame is the magic, the payload's UTF-8 byte length and the type as 32-bit words, then the payload bytes, 14 + byte-length long |
| Frame.UnpackHeader | sway_restore_workspace/sway_ipc.py:55-56 | the header's three fields are read from the first 14 bytes and the magic is not compared |
| Frame.Unpack | sway_restore_workspace/sway_ipc.py:59-63 | fails exactly when the buffer is shorter than the 14-byte header; payload bytes never cause an error |
| Frame.UnpackHeaderPack | sway_restore_workspace/sway_ipc.py:49-56 | the header of a packed frame reads back as the magic, the byte length and the type |
| Frame.UnpackPack | sway_restore_workspace/sway_ipc.py:49-63 | `unpack(pack(t, p)) == p` for every type and payload, whatever bytes follow the frame |
| Frame.UnpackReplacesInvalid | sway_restore_workspace/sway_ipc.py:59-63 | a frame whose one payload byte is 0xFF unpacks to a single U+FFFD instead of failing |
| Frame.UnpackIgnoresTrailing | Reminder.app/Contents/MacOS/sway_ipc.py:52-56 | bytes after the declared payload do not change the result |
| Frame.Py2Pack | i3patch/zoom_bar_d.py:73-76 | succeeds exactly for ASCII payloads shorter than 2^32; a non-ASCII payload is the ASCII encode error; the frame is 14 + the payload length bytes |
| Frame.Py2Unpack | i3patch/zoom_bar_d.py:78-85 | the header is read little-endian and the declared payload decoded as well-formed UTF-8 (encoded surrogates are refused, unlike Python 2); a result re-encodes to exactly the payload bytes |
| Frame.Py2UnpackPack | i3patch/zoom_bar_d.py:73-85 | on a little-endian host `_unpack(_pack(t, p)) == p` for every ASCII payload |
| Frame.Py2UnpackUtf8Pack | i3patch/zoom_bar_d.py:73-85 | with the payload encoded as UTF-8, every payload survives the Python 2 round trip |
| Frame.Py2PackRejectsNonAscii | i3patch/zoom_bar_d.py:73-76 | a payload `é` is refused by `_pack` and accepted by `pack` |
| Bytes.DecodeEncodeU32 | sway_restore_workspace/sway_ipc.py:49-56 | unpacking a packed unsigned 32-bit word gives the number back, in either byte order |
| Bytes.EncodeDecodeU32 | sway_restore_workspace/sway_ipc.py:49-56 | packing what four bytes unpack to gives the same four bytes |
| Utf8.DecodeStrictEncode | i3patch/zoom_bar_d.py:73-81 | strict decoding accepts the UTF-8 encoding of every string and returns that string |
| Utf8.EncodeDecodeStrict | i3patch/zoom_bar_d.py:73-81 | bytes the strict decoder accepts are exactly the encoding of the string it returns |
| Utf8.StrictAgreesWithReplace | sway_restore_workspace/sway_ipc.py:59-63 | on bytes the strict decoder accepts, decoding with replacement gives the same string |
| Utf8.DecodeReplaceEncode | sway_restore_workspace/sway_ipc.py:49-63 | decoding with replacement recovers every string from its UTF-8 encoding |
| Transport.Recv | sway_restore_workspace/sway_ipc.py:67 | `recv(n)` returns at most `n` bytes, a prefix of what remains, and at least one byte while any remain |
| Transport.FillAsWritten | sway_restore_workspace/sway_ipc.py:69-71 | hangs exactly when the stream cannot complete the frame; otherwise the buffer holds at least the frame size and no byte is lost or reordered |
| Transport.ReadAsWritten | sway_restore_workspace/sway_ipc.py:66-73 | when `read` returns, the stream held a whole frame, the payload is what `unpack` reads at its head, and the socket keeps a suffix of what followed the frame, possibly shortened |
| Transport.FillExact | sway_restore_workspace/sway_ipc.py:69-71 | the corrected loop reports end of file exactly when the stream cannot complete the frame; otherwise the buffer holds exactly the frame size and no byte is lost |
| Transport.ReadFrame | sway_restore_workspace/sway_ipc.py:66-73 | the corrected read fails exactly when the stream is shorter than a header or than a header plus its declared payload |
| Transport.ReadFrameAfterPack | sway_restore_workspace/sway_ipc.py:49-73 | reading a packed frame returns its payload, whatever chunk sizes `recv` returns, and leaves the following bytes |
| Transport.ReadFrameChunkingIndependent | sway_restore_workspace/sway_ipc.py:66-73 | the message read and the bytes left depend on the stream only, not on the chunking |
| Transport.ReadFrameShape | sway_restore_workspace/sway_ipc.py:66-73 | a successful read consumed a header plus the declared payload length, and returned that payload decoded |
| Transport.ReadAsWrittenAfterPack | Reminder.app/Contents/MacOS/sway_ipc.py:59-66 | when `read` returns, the payload is the one `unpack` finds at the head of the stream |
| Transport.ReadAsWrittenShortFirstChunk | sway_restore_workspace/sway_ipc.py:67-68 | a first chunk of 7 bytes makes `read` fail where the corrected read succeeds |
| Transport.ReadAsWrittenOverConsumes | sway_restore_workspace/sway_ipc.py:70-71 | after a short chunk the loop swallows the first byte of the next frame |
| Transport.ReadAsWrittenHangsAtEof | sway_restore_workspace/sway_ipc.py:70-71 | a stream closed inside a frame makes the loop run forever; the corrected read reports end of file |
| Transport.Py2Recv | i3patch/zoom_bar_d.py:87-96 | an empty first read gives `('', 0)`; otherwise the payload decoded as well-formed UTF-8 (encoded surrogates are refused, unlike Python 2) and the message type |
| Transport.GetSocket | sway_restore_workspace/sway_ipc.py:76-82 | no socket, and no connection attempt, exactly when `SWAYSOCK` is unset |
| Transport.CommandRequest | Reminder.app/Contents/MacOS/sway_ipc.py:74-76 | `command` sends type 0 with the command text as payload |
| Transport.GetWorkspacesRequest | Reminder.app/Contents/MacOS/sway_ipc.py:69-71 | `get_workspaces` sends type 1 with an empty payload, a bare 14-byte header |
| Transport.PackedRequest | sway_restore_workspace/sway_ipc.py:96-108 | a packed request announces its type and carries its payload |
| Transport.SubscribeWindow | sway_restore_workspace/sway_ipc.py:111-117 | without a socket there is no subscription; otherwise the SUBSCRIBE frame carries `["window"]` |
| ConTree.FindNodesIsFilter | sway_restore_workspace/sway_ipc.py:138-148 | `find_nodes` returns exactly the matching descendants, root excluded, in pre-order over `nodes + floating_nodes` |
| ConTree.FindAppsIsFilter | sway_restore_workspace/srws.py:87-96 | `find_apps` appends exactly the tiling containers with an `app_id` key, in pre-order |
| ConTree.FindAnyInTreeIsFirst | i3patch/zoom_bar_d.py:126-132 | `find_any_in_tree` returns the first match of the root-first pre-order over `nodes`; floating containers are not searched |
| ConTree.FindConParentWorkspaceIsFirst | sway_restore_workspace/sway_ipc.py:120-135 | the match is the first in pre-order, with its parent and the workspace the reference list records (`w or workspace`) |
| ConTree.AnnotatedNodes | sway_restore_workspace/sway_ipc.py:120-135 | the reference list visits the same containers, in the same order, as the pre-order walk |
| ConTree.FindAgreesWithFindNodes | sway_restore_workspace/sway_ipc.py:120-148 | `find_con_parent_workspace` finds nothing exactly when `find_nodes` is empty, and otherwise finds the first container `find_nodes` lists |
| Workspaces.NextNum | sway_restore_workspace/srws.py:242-246 | the number chosen for a new workspace is one above the highest listed number, or 1 when none is listed |
| Workspaces.FocusedNameIsFirstFocused | i3patch/zoom_bar_d.py:110-116 | the name returned is that of the first focused workspace in the list |
| Workspaces.NumberedName | sway_restore_workspace/srws.py:239-250 | the new name `str(num + 1) + suffix` gives back the number and the suffix when the suffix starts with a non-digit |
| Zoom.Marked | i3patch/zoom_bar_d.py:160-165 | a marked name ends in `*Z`; a name already marked is untouched |
| Zoom.Unmarked | i3patch/zoom_bar_d.py:155-158 | a marked name loses exactly its last two characters; others are kept |
| Zoom.MarkedIdempotent | i3patch/zoom_bar_d.py:160-165 | marking twice is marking once |
| Zoom.UnmarkedMarked | i3patch/zoom_bar_d.py:155-165 | removing the mark undoes adding it for every unmarked name |
| Zoom.MarkedUnmarked | i3patch/zoom_bar_d.py:155-165 | adding the mark back to a marked name's stem gives the name again, unless the stem was marked too |
| Zoom.AddZMarkToFocused | i3patch/zoom_bar_d.py:160-165 | a rename is sent exactly when the focused name lacks the mark, and it renames to the marked name |
| Zoom.RemoveZMarkFromFocused | i3patch/zoom_bar_d.py:155-158 | a rename is sent exactly when the focused name has the mark, and it renames to the stem |
| Zoom.UnmarkAll | i3patch/zoom_bar_d.py:118-124 | each rename goes from a marked name to its stem; there is none exactly when no workspace name is marked; at most one per workspace |
| Zoom.BranchZoomed | i3patch/zoom_bar_d.py:137-141 | the intended reading: a branch counts as zoomed exactly when a container named like the workspace exists and holds a zoomed container; a missing branch counts as not zoomed |
| Zoom.CrashAt | i3patch/zoom_bar_d.py:137-149 | as written, a workspace raises AttributeError exactly when no container carries its name, and TypeError exactly when one does and the name already carries the mark |
| Zoom.MarkAllZoomedAsWritten | i3patch/zoom_bar_d.py:134-149 | as written, the pass finishes exactly when no workspace raises; every rename it sends adds the mark, and there is at most one per workspace |
| Zoom.RelabelSettles | i3patch/zoom_bar_d.py:134-149 | after one pass every name agrees with its zoom state, unless it ended in the mark twice |
| Zoom.RelabelDoubleMark | i3patch/zoom_bar_d.py:146-149 | a name ending in `*Z*Z` still carries the mark after being stripped once |
| Zoom.MarkAllZoomed | i3patch/zoom_bar_d.py:134-149 | the intended pass sends at most one rename per workspace, each adding the mark to a name or taking it off |
| Zoom.MarkAllZoomedAgrees | i3patch/zoom_bar_d.py:134-149 | as written, the renames sent before the first workspace that raises are the intended renames of the workspaces before it, and the pass stops with that workspace's error |
| Zoom.FirstCrash | i3patch/zoom_bar_d.py:134-149 | when the pass as written stops, its error is the one some workspace raises |
| Zoom.MarkAllZoomedStaleMark | i3patch/zoom_bar_d.py:144-149 | on a tree holding `1*Z` with no zoomed container below it, the code as written raises TypeError before sending anything, while the intended pass renames `1*Z` to `1` |
| Zoom.StaleMarkTreeExists | i3patch/zoom_bar_d.py:139-141 | a tree with a workspace `1*Z` and no zoomed container exists, so the stale-mark case can arise |
| Zoom.React | i3patch/zoom_bar_d.py:167-187 | only `zoomed`/`close` changes act; a focused `zoomed` event adds or removes the mark; closing a zoomed container unmarks when focused and re-marks all otherwise |
| Zoom.HandleEvent | i3patch/zoom_bar_d.py:167-187 | the intended handler: the commands one event sends follow the decision taken by `React`, with the intended re-marking pass |
| Zoom.HandleEventAsWritten | i3patch/zoom_bar_d.py:167-187 | as written, an event that does not raise sends what the intended handler sends; one that raises is a re-marking close event and fails with some workspace's error |
| Zoom.ZoomUnzoomRestoresName | i3patch/zoom_bar_d.py:155-187 | zooming and unzooming the focused container gives the focused workspace its unmarked name back |
| Daemon.OwnsZoomIsAnyZoomed | i3patch/daemon.py:104-109 | without nested workspaces, a workspace counts as zoomed exactly when some container of its subtree is zoomed |
| Daemon.WorkspacesOf | i3patch/daemon.py:104-107 | every workspace listed is a named, non-internal workspace; a workspace at the root lists just itself |
| Daemon.RelabelWorkspaces | i3patch/daemon.py:104-119 | sends nothing exactly when every workspace's mark already agrees with its zoom state |
| Daemon.RelabelAllRenamed | i3patch/daemon.py:104-119 | after one pass no renamed workspace needs another rename |
| Daemon.RelabelTwice | i3patch/daemon.py:104-119 | a second pass over the relabelled tree sends nothing, when no name ends in the mark twice |
| Daemon.WorkspacesOfRelabelled | i3patch/daemon.py:104-119 | the relabelled tree lists the renamed workspaces in the same order |
| Daemon.CreateWorkspace | i3patch/daemon.py:126-136 | the new name starts with a number above every existing workspace's number, which reads back from it, followed by the five random letters |
| Daemon.NewName | i3patch/daemon.py:183-210 | a number that belongs to another workspace is replaced by a fresh one; otherwise the entered name is kept |
| Daemon.RenumberedIsFresh | i3patch/daemon.py:195-207 | a renumbered name carries a number no workspace uses, so it is not renumbered again |
| Daemon.UnnumberedNameKept | i3patch/daemon.py:183-210 | a name without leading digits is sent unchanged |
| Daemon.AsyncRename | i3patch/daemon.py:183-210 | a failed dmenu sends nothing; otherwise one rename of the focused workspace whose name keeps the text after the entered number, is the entered name unless that takes another workspace's number, and then starts with the next number, which no workspace holds |
| Daemon.Suggestions | i3patch/daemon.py:213-231 | every suggestion is a name-file line prefixed with the current number, or with nothing when there is none |
| Daemon.PickedSuggestionKept | i3patch/daemon.py:183-231 | picking a suggestion keeps the current workspace's number and sends the suggestion unchanged |
| Daemon.ConMenu | i3patch/daemon.py:434-450 | the menu is the main actions, then the full- or empty-scratchpad actions as the scratchpad holds windows, then the auxiliary ones |
| Daemon.ActionForLabel | i3patch/daemon.py:416-430 | `actions_map` and the label table are inverse: each label names exactly one handler |
| Daemon.MenuHandled | i3patch/daemon.py:378-430 | every entry of either menu has a handler, and the entries are distinct |
| Daemon.AsyncCon | i3patch/daemon.py:403-431 | a failed or empty answer does nothing; a known entry runs its handler; an unknown one raises KeyError |
| Daemon.MenuLines | i3patch/daemon.py:442-446 | the menu text, joined with newlines, splits back into the labels |
| Daemon.PickMenuEntry | i3patch/daemon.py:403-446 | choosing any line of the menu, newline included, runs its handler |
| Daemon.SplitAndPasteIsSplitThenPaste | i3patch/daemon.py:245-365 | the split-and-paste handlers split, then do exactly what `paste` does |
| Daemon.FifoCommand | i3patch/daemon.py:485-495 | no read, or an empty first read, gives the empty command; a command never ends in whitespace |
| Daemon.FifoCommandIsLastRead | i3patch/daemon.py:485-495 | the command is the last non-empty read before the first empty one, trailing whitespace stripped; later reads never count |
| Daemon.Dispatch | i3patch/daemon.py:480-523 | each known command string starts its action; anything else does nothing |
| Daemon.TriggersDisjoint | i3patch/daemon.py:480-523 | no two actions share a command string, so the order of the chain does not matter |
| Daemon.Steps | i3patch/daemon.py:497-523 | the three menus only open when dmenu is not already running; the other actions ignore dmenu |
| Daemon.StepsUnguarded | i3patch/daemon.py:503-505 | `move_block 1` creates a workspace, then runs `smart_run` |
| Restore.GetAndRemember | sway_restore_workspace/srws.py:157-167 | an eligible node is returned and its id recorded; otherwise nothing changes |
| Restore.FirstDeepestIsLastEligible | sway_restore_workspace/srws.py:169-184 | the search returns the deepest eligible container on the first-child chain |
| Restore.ParentLinksCover | sway_restore_workspace/srws.py:197-200 | every tiling descendant gets exactly one link to its container, in pre-order |
| Restore.NearestIsNearest | sway_restore_workspace/srws.py:186-195 | the entry found belongs to the nearest container, counting up from the node, that has one |
| Restore.LaunchCommandParts | sway_restore_workspace/srws.py:105-111 | the command is the mapped executable, then the arguments after one space; splitting at the first space recovers both |
| Restore.Wait | sway_restore_workspace/srws.py:114-123 | the wait stops at the first poll that is past the timeout (exit 1, even if the count rose) or that sees the count risen; no earlier poll did either, and a wait still going saw neither |
| Restore.ScaledSize | sway_restore_workspace/srws.py:61-74 | without both rects there is nothing to scale; a saved rect of zero width or height is a division by zero |
| Restore.ScaledSizeSameRect | sway_restore_workspace/srws.py:61-74 | with exact division, on a live workspace of the saved size every node keeps its size, with the title bar added |
| Restore.ScaledSizeBounds | sway_restore_workspace/srws.py:61-74 | with exact division, the scaled width never exceeds the proportional share |
| Restore.SplitCommands | sway_restore_workspace/srws.py:76-85 | the split command (horizontal when unset), then the layout when it is set |
| Restore.CountRealAppsIsFilter | sway_restore_workspace/srws.py:98-103 | the count is the number of containers with an `app_id` key in the focused workspace's tiling subtree |
| Restore.LaunchIdsPrefix | sway_restore_workspace/srws.py:202-223 | the ids launched only grow along a walk |
| Restore.TraverseStep | sway_restore_workspace/srws.py:202-223 | each level keeps the walk consistent: recorded ids are exactly the launched ones, no id twice, no focus before launch |
| Restore.TraverseKidsStep | sway_restore_workspace/srws.py:220-223 | what holds for the parent's chain and later siblings still holds after one child's walk |
| Restore.LoadWorkspace | sway_restore_workspace/srws.py:225-261 | a saved workspace without nodes, or an empty workspace list, is refused before anything is sent; otherwise the walk is consistent and uses the last listed workspace's rect |
| Restore.RenderResolves | sway_restore_workspace/srws.py:129-136 | when every focus follows its launch and every launched id has a live container, every focus step resolves |
| Restore.RenderPlan | sway_restore_workspace/srws.py:202-223 | when a workspace loads and a live container is known for every launched one, every focus step of its replay resolves |
| Reminder.DurationString | Reminder.app/Contents/MacOS/core.py:46-53 | the saved text is `H:MM:SS` under a day, with a `N day(s), ` prefix beyond |
| Reminder.StrToDuration | Reminder.app/Contents/MacOS/core.py:23-26 | hours, minutes and whole seconds are read from the leading `H:M:S`; no match is an error |
| Reminder.DurationRoundTrip | Reminder.app/Contents/MacOS/core.py:23-53 | `str_to_timedelta(str(td)) == td` for every whole-second duration under a day |
| Reminder.MatchClock | Reminder.app/Contents/MacOS/core.py:23-26 | any three non-empty digit runs joined by colons match the pattern with those runs as its groups |
| Reminder.LongDurationUnreadable | Reminder.app/Contents/MacOS/core.py:23-26 | a duration of a day or more is written in a form the pattern rejects |
| Reminder.StartTimer | Reminder.app/Contents/MacOS/core.py:59-63 | the timer starts at `now` with the spin-box duration and the icon turns active |
| Reminder.LoadSaved | Reminder.app/Contents/MacOS/core.py:34-44 | the saved start and duration are restored, or the parse error is reported |
| Reminder.SaveLoadRoundTrip | Reminder.app/Contents/MacOS/core.py:34-63 | a timer started and saved is restored with the same start and duration |
| Reminder.CountdownExact | Reminder.app/Contents/MacOS/core.py:73-93 | under a day the countdown's hours, minutes and seconds reassemble the remaining seconds |
| Reminder.Idle | Reminder.app/Contents/MacOS/core.py:73-93 | while time remains the timer is kept; when it runs out the alarm fires once and the timer stops |
| Reminder.IdleShowsRemaining | Reminder.app/Contents/MacOS/core.py:73-93 | while time remains, `idle` shows exactly the whole seconds left |
| Reminder.IdleFiresOnce | Reminder.app/Contents/MacOS/core.py:73-93 | once the alarm has fired, the next `idle` does nothing |
| Reminder.ClockText | Reminder.app/Contents/MacOS/core.py:65-71 | the placeholder `X:YY:ZZ` when idle; a running countdown whose fields are each under 100 reads as 8 characters `HH:MM:SS` |
| Reminder.ClockTextReadsBack | Reminder.app/Contents/MacOS/core.py:65-71 | the running clock text reads back as the countdown it shows |
| Keyboard.Tokens | keyboard_tray/core.py:255 | every token found is a match of `[a-z0-9():\-]+(_[0-9])?` |
| Keyboard.StripPc | keyboard_tray/core.py:254 | a leading `pc+` or `pc_` is removed, nothing else |
| Keyboard.PostfixNamesMembers | keyboard_tray/core.py:257-260 | a name is collected exactly when some suffixed token loses its suffix to give it |
| Keyboard.ParseGroupNames | keyboard_tray/core.py:252-263 | the first token, then every suffixed token without its suffix, at most four; undecodable bytes and no token are errors |
| Keyboard.TokensOfJoin | keyboard_tray/core.py:255 | splitting the `+`-joined symbols into tokens gives the words back |
| Keyboard.ParseSymbols | keyboard_tray/core.py:252-263 | for symbols `pc+l0+l1:2+...+options` the group names are the layouts, in order, cut to four |
| Keyboard.NextGroup | keyboard_tray/core.py:317-323 | the next group wraps from the last group to the first |
| Keyboard.SwitchesFromFirst | keyboard_tray/core.py:317-323 | from the first group, `n` switches land on group `n` |
| Keyboard.SwitchesCycle | keyboard_tray/core.py:317-323 | as many switches as there are groups come back to the start |
| Keyboard.Label | keyboard_tray/core.py:330-336 | the drawn label is the first two characters of the group name |
| Keyboard.IconName | keyboard_tray/core.py:338-344 | the theme icon is `indicator-keyboard-` and the capitalised two-letter label |
| Keyboard.SimpleGroupsDrawn | keyboard_tray/core.py:330-344 | the simple groups are drawn as `en` and `ru`, with icons ending `En` and `Ru` |
| Pattern.Search | webcam/core.py:43-62 | the result is the leftmost position where the pattern matches, and none when it matches nowhere |
| Pattern.LastMatchIn | webcam/core.py:20 | a greedy `.*` settles on the last position where the rest of the pattern matches |
| Webcam.FpsSearch | webcam/core.py:66-68 | no frame rate is found only when the pattern fits at no position from the search start on |
| Webcam.Resolution | webcam/core.py:39-41 | fails with `NoColon` exactly when the line has no `:`, with `NotTwoSizes` exactly when the stripped text after the first `:` does not split at `/` into two parts, and otherwise returns those two parts as `WxH` |
| Webcam.GetFormat | webcam/core.py:36-52 | the pixel format and size come from lines before the first pixel-format line; the frame rate is that of the last `--get-parm` line giving one |
| Webcam.ScanStopsAtPixelFormat | webcam/core.py:38-47 | the scan stops at the first pixel-format line and returns the size carried so far |
| Webcam.ScanIgnoresRest | webcam/core.py:38-47 | lines after the first pixel-format line are never read |
| Webcam.ReadFormats | webcam/core.py:54-70 | one format per interval line, with the pixel format and size of the latest lines above it |
| Webcam.ListFormats | webcam/core.py:54-70 | the loop over classified lines lists exactly the formats of the reference definition, one per interval line |
| Webcam.ListedStep | webcam/core.py:56-69 | one more line changes the carried pixel format, size and list as its kind says |
| Webcam.AddParams | webcam/core.py:91-95 | succeeds exactly when every token holding `=` splits into one key and one value; otherwise the error is such a token |
| Webcam.AddParamsFromTokens | webcam/core.py:91-95 | every parameter entry was there before or is the key and value of a token |
| Webcam.AddParamsKeys | webcam/core.py:91-95 | every token with `=` sets its key, and no earlier key is lost |
| Webcam.ReadControls | webcam/core.py:72-99 | every control read carries menu items exactly when its type is `menu` |
| Webcam.ResolutionRoundTrip | webcam/core.py:104-107 | the size written as `WxH` splits back into its width and height |
| Webcam.SetFormat | webcam/core.py:104-108 | raises exactly when the size does not split at `x` into two parts; otherwise the format argument, read back as `v4l2-ctl` cuts it at `,` and `=`, gives a width and height that make up the size again and the pixel format, whenever neither holds `,` or `=` |
| Webcam.ReadFmtArgSound | webcam/core.py:106-107 | an argument that reads back as a width, height and pixel format is exactly the format argument built from them |
| Webcam.ReadFmtArgBack | webcam/core.py:106-107 | a format argument whose fields hold no `,` or `=` reads back as its width, height and pixel format |
| Webcam.SetListedFormat | webcam/core.py:104-108 | a listed format is set with exactly its width and height |
| Webcam.ScriptReadsBack | webcam/core.py:110-122 | read line by line, the script gives back its lines with a blank line between each two |
| Webcam.ExportScript | webcam/core.py:110-122 | fails exactly when a control has no `value` or the size is missing or unsplittable; otherwise the script holds the shebang, the format command and the control settings |
| Webcam.SettingsReadBack | webcam/core.py:116-119 | the settings line lists each control's `name=value`, recoverable by splitting on commas |
| Volume.LabelsHaveNoUnderscore | volume_tray/core.py:36-47 | no label of the profile table contains an underscore |
| Volume.OfferedLabel | volume_tray/core.py:66-70 | a label is offered only for a card and a profile that exist |
| Volume.ScanKeys | volume_tray/core.py:65-72 | after the scan a key is listed exactly when it was listed before or some scanned profile offers it |
| Volume.ScanConsistent | volume_tray/core.py:65-76 | the scan keeps every listed entry offered under its key, and the current profile listed |
| Volume.ScanCurrent | volume_tray/core.py:73-76 | a current profile the scan sets is the active profile of the sink's card, matched on four characters |
| Volume.IntrospectConsistent | volume_tray/core.py:60-76 | after `introspect` every listed entry is a profile offered under its key |
| Volume.IntrospectKeys | volume_tray/core.py:60-76 | after `introspect` the table lists exactly the keys some card offers |
| Volume.IntrospectCurrent | volume_tray/core.py:60-76 | the current profile, if any, is offered by the active profile of the sink's card |
| Volume.SetProfile | volume_tray/core.py:78-87 | an unlisted key raises KeyError; otherwise every other card is switched off and the chosen card gets the chosen profile, at least once |
| Volume.SinkVolumeAndMute | volume_tray/core.py:105-112 | the volume in percent, cut to [0, 100], and the mute flag; no sink means silent and muted |
| Volume.ChangeVolume | volume_tray/core.py:118-123 | the volume moves by `value` percent within [0, 1], exactly when that fits, in the direction of `value`; without a sink nothing happens |
| Volume.IconLevel | volume_tray/core.py:164-173 | muted wins; below 25 is low, above 75 high, anything else medium |
| Volume.IconMonotone | volume_tray/core.py:164-173 | a louder unmuted sink never shows a quieter icon |
| Volume.MediaKeyPressed | volume_tray/core.py:270-287 | mute toggles and reports the new state; a muted sink ignores up and down and reports `Muted`; otherwise the volume moves by 5 % and is reported |
| Volume.MuteTwice | volume_tray/core.py:270-287 | pressing mute twice gives the sink back |
| Volume.UpThenDown | volume_tray/core.py:270-287 | volume up then down gives an unmuted sink back when the step fits below 100 % |
| Volume.SendNotification | volume_tray/core.py:289-298 | the previous notification is replaced exactly when it is less than three seconds old; it expires after 3000 ms |
| Volume.NotificationsCoalesce | volume_tray/core.py:289-298 | a second notification within three seconds replaces the first; a later one starts afresh |
| Volume.SplitKeyAsWrittenCutsEarly | volume_tray/core.py:230 | as written, a description ending in `_` is cut one character early and the label gains the underscore |
| Volume.SplitKeyAsWrittenRejects | volume_tray/core.py:230 | as written, a description that holds `__` makes the key unreadable |
| Volume.SplitKey | volume_tray/core.py:230 | split at the last `__`: fails exactly when there is none, and the label then holds no `__` |
| Volume.SplitKeyRoundTrip | volume_tray/core.py:71 | every key the table builds splits back into its description and label |
| Volume.SplitKeyAsWrittenClean | volume_tray/core.py:230 | as written, a key whose description neither holds `__` nor ends in `_` splits into its description and label |
| Volume.AddKeyItems | volume_tray/core.py:231-241 | filing a key adds exactly its item to its device, after the existing ones, and keeps every other device |
| Volume.GroupKeysFails | volume_tray/core.py:228-241 | with the corrected split at the last `__`, grouping fails exactly when some key holds no `__` |
| Volume.GroupKeysAsWrittenFails | volume_tray/core.py:228-241 | as written, grouping fails exactly when some key does not split into two parts at its `__` |
| Volume.GroupKeysAsWrittenAgrees | volume_tray/core.py:228-241 | as written, grouping gives the corrected result whenever every key splits the same both ways |
| Volume.GroupKeysTotal | volume_tray/core.py:228-241 | each device is listed once under its underscored name, with one item per key |
| Volume.GroupKeysFiles | volume_tray/core.py:228-241 | after grouping, every key is filed under its device with its label |
| Volume.GroupKeysFrom | volume_tray/core.py:228-241 | after grouping, every filed item was there before or is a key filed under its device |
| Volume.MenuPositions | volume_tray/core.py:243-255 | the menu has one entry per device and per item, at consecutive positions |
| Volume.MenuContents | volume_tray/core.py:246-255 | in order, the labels are the devices' names with their battery levels, and the profile items are the devices' items |
| Volume.UpdateMenuSpec | volume_tray/core.py:221-255 | with the corrected split: fails exactly when some key holds no `__`; otherwise entries from position 3, one profile item per key, each with its own label, and nothing else |
| Volume.UpdateMenuLinks | volume_tray/core.py:221-255 | with the corrected split, on success every key is linked from the menu under its profile part, and every link leads to a key of the profiles |
| Volume.IntrospectedMenu | volume_tray/core.py:221-255 | with the corrected split, right after `introspect` the menu never fails and shows every offered profile under its key |
| Volume.UpdateMenuAsWrittenSpec | volume_tray/core.py:221-255 | as written, the menu fails exactly when some key does not split into two parts, and it is the corrected menu whenever every key splits the same both ways |
| Volume.IntrospectedMenuAsWritten | volume_tray/core.py:221-255 | right after `introspect`, when no card's description holds `__` or ends in `_`, the menu as written is the corrected one and never fails |
| Power.ClampBrightness | pm_applet/core.py:108-113 | the value is cut to [0, max] |
| Power.SetBrightness | pm_applet/core.py:108-113 | the text written is digits that parse to the clamped value |
| Power.SetPercent | pm_applet/core.py:115-124 | the text written is digits that parse to the brightness the percentage asks for |
| Power.PercentEnds | pm_applet/core.py:115-124 | zero percent or less is dark; a hundred or more is full brightness |
| Power.PercentBetween | pm_applet/core.py:115-124 | in between, the brightness is that share of the maximum rounded down |
| Power.PercentMonotone | pm_applet/core.py:115-124 | a higher percentage never gives a darker backlight |
| Power.CurrentPercentRoundTrip | pm_applet/core.py:99-124 | setting exactly the percentage `current_percent` computes, unrounded, writes the current brightness back |
| Power.SliderPercent | pm_applet/app_qt5.py:319 | the slider shows the whole part of `current_percent`, between 0 and 100 |
| Power.SliderRoundTrip | pm_applet/app_qt5.py:307-319 | the brightness the slider sets back never exceeds the current one and falls short of it by less than a hundredth of the maximum plus one |
| Power.SliderRoundTripLoses | pm_applet/app_qt5.py:307-319 | with a maximum of 1000 and a current brightness of 555, the slider shows 55 and sets 550 |
| Power.StateTable | pm_applet/core.py:11-19 | a listed code decodes to its state; a code decodes to `Undefined` exactly when the table lacks it |
| Power.TypeTable | pm_applet/core.py:21-32 | a listed code decodes to its type; a code decodes to `Undefined` exactly when the table lacks it |
| Power.DeviceDetail | pm_applet/core.py:38-63 | type and state are decoded through the tables, the other fields as reported |
| Power.IconBucketClosedForm | pm_applet/app_qt5.py:271-293 | the bucket is the percentage rounded down to a multiple of ten, cut to [0, 100] |
| Power.IconBucketMonotone | pm_applet/app_qt5.py:271-293 | a fuller battery never shows an emptier icon |
| Power.BatteryIconReadsBack | pm_applet/app_qt5.py:295-305 | the icon name gives back the bucket and whether the line power is online |
| Power.SortSpec | pm_applet/app_qt5.py:237-250 | the battery and the line power are the last device of their type; every other device keeps its order among the rest |
| Power.DeviceActionReadsBack | pm_applet/app_qt5.py:344-354 | the battery and the other devices are titled by vendor and model and show a charge that reads back as their percentage, the battery's subtitle starting with its state and the others' with `Current charge`; the line power shows no charge and `online` exactly when it is online |
| Power.ChargeReadsBack | pm_applet/app_qt5.py:347-354 | whatever text precedes it, ` {percentage}%` reads back as the percentage, negative ones included |
| Power.UpdateMenuShowsDevices | pm_applet/app_qt5.py:335-358 | the corrected menu lists the battery with its charge first, then the line power with its online state, then every other device in order with its charge, then the applet's own actions |
| Power.InsertAsWrittenSkipsFirst | pm_applet/app_qt5.py:340-358 | without a battery, the line-power entry lands below the menu's first own action |
| Power.InsertHeadsMenu | pm_applet/app_qt5.py:340-358 | inserting after the entries already inserted puts the present entries, in slot order, ahead of the rest |
| Power.UpdateMenu | pm_applet/app_qt5.py:335-358 | with each entry inserted after the entries already inserted (the corrected loop), the menu is the present device entries, in `[battery, line_power] + misc` order, then the applet's own actions |
| Power.InsertAsWrittenAgrees | pm_applet/app_qt5.py:340-358 | when every slot holds an entry, inserting before the action at the slot index is inserting after the entries already inserted |
| Power.UpdateMenuAsWrittenAgrees | pm_applet/app_qt5.py:335-358 | as written, with a battery, a line power and actions of the applet's own, the menu is the intended one |
| HotCorners.GetArea | drafts/hot_corners_py2.py:241-251 | each answer lies in its strip; None exactly when the point is in no strip; both top corners give None; for `w > 4` the answer is the one strip holding the point |
| HotCorners.RegionsDisjoint | drafts/hot_corners_py2.py:241-251 | on a screen wider than four pixels the three strips do not overlap |
| HotCorners.NarrowScreenPrefersRight | drafts/hot_corners_py2.py:247-250 | on a screen at most four pixels wide the side strips overlap and the shared points go to the right edge |
| HotCorners.CastButtonEvent | drafts/hot_corners_py2.py:153-169 | every field fits its C width; the response type and the button are bytes 0 and 1 |
| HotCorners.CastEncodedEvent | drafts/hot_corners_py2.py:153-169 | the bytes of any event read back as the event |
| HotCorners.EncodeCastEvent | drafts/hot_corners_py2.py:141-169 | the event structure covers all 32 bytes, so re-encoding gives them back |
| HotCorners.HandleRbm | drafts/hot_corners_py2.py:253-260 | a command runs exactly when the pointer is in a strip, and the command is that strip's |
| HotCorners.EventCallback | drafts/hot_corners_py2.py:262-273 | only a release of button 3 is handled, and it is handled as a button event |
| HotCorners.OnlyRightReleaseRuns | drafts/hot_corners_py2.py:262-273 | a command runs exactly for a release of button 3 on a strip |
| HotCorners.PressIsIgnored | drafts/hot_corners_py2.py:262-273 | a button press never runs a command |
| BarMouse.ModifierTests | bar_on_mouse.py:61-73 | the two mask tests say "Alt and Shift both held" and "not both held" |
| BarMouse.Setup | bar_on_mouse.py:93-98 | the safe height is the bar height times 2.5 truncated; the rows beyond it and the edge row follow the position |
| BarMouse.SafeArea | bar_on_mouse.py:95-100 | at the bottom, `bar_test(y)` is `y < screen_height - bar_height`; at the top, `y > bar_height` with edge 0 |
| BarMouse.ShippedSetup | bar_on_mouse.py:93-100 | as shipped the edge is the last row and the pointer is beyond the safe area above `screen_height - int(h * 2.5)` |
| BarMouse.Step | bar_on_mouse.py:61-88 | Num Lock is pulsed exactly when the visibility flips; a key press shows only a hidden bar with Alt+Shift and an arrow; a key release hides only a visible bar with a modifier released beyond the safe area; motion shows on the edge row and hides beyond the safe area; other events change nothing |
| BarMouse.HandlerPulses | bar_on_mouse.py:51-88 | over a reply the faked keys are whole Num Lock pulses, one per flip, and the final visibility is the start flipped that many times |
| BarMouse.EdgeKeepsBar | bar_on_mouse.py:81-100 | motion along the edge row shows the bar and then keeps it shown |

## Left out

- **I/O.** Socket connection and `sendall`, subprocess calls, dmenu, JSON parsing and file reads and writes. The environment, D-Bus, pulsectl, BlueZ, UPower, XCB, Xlib and XTEST are outside the model. Their results are parameters: byte streams with chunk sizes, oracle replies, dmenu answers and file contents. Their effects are outputs: commands sent, frames, key events faked.
- **Clocks and sleeps.** The current instant is a parameter. The launch wait in `srws.py` polls a sequence of counts with their times.
- **Concurrency.** The daemon's threads, the listeners of the trays and of pulsectl, and the threaded bar-on-mouse draft.
- **Floating point.** Volumes are exact reals, brightness percentages exact rationals, and rect scaling divides exactly. Python's float rounding is not modelled: `int(percentage)` from UPower is taken as an integer, and an `int()` of a float product that floats put just below a whole number is not rounded down here.
- **Unicode.** `\d`, `\s`, `str.split()` and `rstrip` are modelled on ASCII only. Their ASCII whitespace includes the separators `\x1c` to `\x1f`, as Python's does. Python's versions also accept non-ASCII digits and spaces, such as `\x85` and `\xa0`.
- **`smart_fullscreen`, `smart_run`, `move_to_new_workspace`, `scratch_to_from` and `exit_i3`.** These are window-manager choreography with no logic of their own beyond the commands they send; the dispatch only records that they run.
- **`update_icon`.** Its card-removal branch (re-introspect, then switch to the first profile) is left out, as are `set_volume` and `get_active_sink`, whose sink choice is an oracle.
- **`get_batt_levels`.** It is a parameter: the map from device name to the battery text BlueZ gives.
- **The unused icon name.** `on_media_key_pressed` computes an icon name it never uses; the model leaves it out.
- **`get_mute` with no sink.** It raises AttributeError; the model reports `NoActiveSink`.
- **A card description of None.** It makes `introspect` raise TypeError; descriptions are strings here.
- **`set_profile`'s `if not prof` branch.** It cannot be taken, since a listed entry is a non-empty pair.
- **`max_brightness`** is taken as a non-negative integer. The `intel_backlight` path choice is left out.
- **Hot corners.** The XCB RECORD setup, the polling loop and the refusal of byte-swapped clients are left out. So is the screen query: the screen width is a parameter.
- **Bar on mouse.** The RECORD setup and the parsing of the raw reply into events are left out. So are `find_bar` and the keysym-to-keycode lookup: the events arrive as a sequence and the keycodes are a parameter.
- **GUI code and older versions.** The window and widget front ends are left out: the `app_gtk3.py`, `app_qt5.py` and `app_qt6.py` files of `keyboard_tray/`, `volume_tray/`, `webcam/` and `Reminder.app/Contents/MacOS/`, with `Reminder.app/Contents/MacOS/reminder_qt5.py`, `calendar.py`, `maximus.py` and `pyqt/pyqt.py`. So are the older single-file versions `keyboard_tray.py`, `volume_tray.py`, `webcam.py`, `reminder.py` and `reminder_gtk3.py`, every script under `drafts/` except the hot-corner classifier of `drafts/hot_corners_py2.py`, the X11 key listener `volume_tray/x11_global_key_listener.py`, and the shorter `Reminder.app/Contents/MacOS/sway_ipc.py`, whose `pack`, `unpack` and `read` are those of `sway_restore_workspace/sway_ipc.py` without type hints. Of `pm_applet/app_qt5.py` the slider round trip, the battery icon, device sorting and the device menu are modelled; its Qt widgets are left out.
- **`unpack_header`** returns the magic without checking it, and the model does the same.
- **`load_workspace`** takes the rect of the LAST workspace `get_workspaces` lists, not that of the focused one; the model follows the code.
- **Webcam parser quirks**, modelled as the code behaves:
  - a menu line before any control is a KeyError;
  - a parameter token holding two `=` is a ValueError;
  - a control re-read keeps its place in the dict;
  - a missing frame rate prints as `None`.
- **Reminder.LongDurationUnreadable:** durations of a day or more cannot be restored. The spin boxes limit durations to under a day, so the round trip is stated below a day only.
- **Reminder.StrToDuration:** a fractional seconds group is reported as an error instead of being read as a float. Python would accept it, but `save_alarm` only writes whole seconds.
- **Volume.IntrospectCurrent:** the active sink's name is compared on four characters as the code does. Whether that identifies the right card depends on PulseAudio naming, which the model does not state.
- **Power.CurrentPercentRoundTrip:** feeds the unrounded percentage back, which the program never does: the slider takes `int(current_percent)` first. `Power.SliderRoundTrip` states what the program does, a loss of up to a hundredth of the maximum. With floats the division and product can also land one below.
- **Power.UpdateMenuShowsDevices:** states the corrected insertion, like `Power.UpdateMenu` below.
- **Power.UpdateMenu:** states the corrected insertion. As written, an absent battery or line power shifts every later entry one action down, as `Power.InsertAsWrittenSkipsFirst` shows, and an entry past the menu's end raises IndexError. `Power.UpdateMenuAsWrittenAgrees` covers the case where both devices are present.
- **Restore.ScaledSize:** divides exactly. Python computes `int(n / l * w)` in floating point, which can land one pixel low: a 57-pixel node on two 100-pixel workspaces gives 56.
- **Restore.ScaledSizeSameRect:** holds with exact division only. With floats, a node on a live workspace of the saved size can shrink by one pixel, such as 57 to 56.
- **Restore.ScaledSizeBounds:** holds with exact division only. With floats the scaled size can fall one pixel below the whole part of the proportional share; the model states nothing about float results.
- **Volume.GroupKeysFails:** states the corrected split at the last `__`. As written, `split('__')` also fails on a key holding `__` twice, as `Volume.SplitKeyAsWrittenRejects` shows; `Volume.GroupKeysAsWrittenFails` states the failure as written.
- **Volume.UpdateMenuSpec:** states the corrected split. As written, the menu also fails on a description holding `__` and files a description ending in `_` under a shorter device name; `Volume.UpdateMenuAsWrittenSpec` relates the two.
- **Volume.UpdateMenuLinks:** states the corrected split. As written, a description ending in `_` is shown with the underscore moved into the label, as `Volume.SplitKeyAsWrittenCutsEarly` shows.
- **Volume.IntrospectedMenu:** states the corrected split. As written, the menu is only known to match it when no card's description holds `__` or ends in `_`, as `Volume.IntrospectedMenuAsWritten` states.
- **Frame.Py2Unpack:** also covers `Transport.Py2Recv` and `Utf8.SecondOk`. Dafny's `char` holds no surrogate code points, so the model decodes well-formed UTF-8 only and refuses `ED A0`..`ED BF`. Python 2's UTF-8 codec accepts those encoded surrogates, decoding `b'\xed\xa0\x80'` to `u'\ud800'`. Python 3's `pack` raises UnicodeEncodeError on a string holding a lone surrogate. Neither behaviour is modelled.
- **Bytes.** An octet is a `newtype byte` over the integers 0 to 255, not a `bv8`. The packing of 32-bit words is stated in integer arithmetic, as quotients and remainders by powers of 256, and a `bv8` would add conversions without adding a case.

## Findings

| source | as written | input that shows it | evidently intended | confidence | as-written member | corrected member |
|---|---|---|---|---|---|---|
| sway_restore_workspace/sway_ipc.py:67-68 | the first `recv(14)` is taken to hold the whole header | a peer that delivers the first 7 bytes of a frame, then the rest | keep receiving until the 14-byte header is in | not executed; high | Transport.ReadAsWrittenShortFirstChunk | Transport.ReadFrame |
| sway_restore_workspace/sway_ipc.py:70-71 | each round asks for `msg_length` bytes, not for the bytes still missing | a frame `pack(COMMAND, 'abcd')` followed by another frame, delivered 15 bytes then the rest | ask for `msg_size - len(data)` so that the next frame stays on the socket | not executed; high | Transport.ReadAsWrittenOverConsumes | Transport.ReadFrameAfterPack |
| sway_restore_workspace/sway_ipc.py:70-71 | an empty `recv` at end of file is appended and the loop goes round again | the peer closes after the first 15 bytes of a frame with a 2-byte payload | stop and report end of file | not executed; high | Transport.ReadAsWrittenHangsAtEof | Transport.ReadFrame |
| i3patch/zoom_bar_d.py:73-76 | Python 2 `payload.encode()` uses the ASCII codec | a workspace named `é` | encode as UTF-8, as the decoder and the Python 3 clients do | not executed; medium | Frame.Py2PackRejectsNonAscii | Frame.Py2UnpackUtf8Pack |
| i3patch/zoom_bar_d.py:146-149 | `'rename workspace %s to %s' % name, name[:-2]` formats with one argument and raises TypeError | a tree holding a workspace `1*Z` whose branch holds no zoomed container (`Zoom.StaleMarkTreeExists`) | rename `1*Z` to `1` | not executed; high | Zoom.MarkAllZoomedStaleMark | Zoom.MarkAllZoomed |
| volume_tray/core.py:230 | `k.split('__')` cuts at the first `__` and needs exactly two parts | a card described as `Dock_` offering `A2DP SBC`: the key `Dock___A2DP SBC` splits into `Dock` and `_A2DP SBC` | split at the last `__`, which the table's labels never contain | not executed; medium | Volume.SplitKeyAsWrittenCutsEarly | Volume.SplitKeyRoundTrip |
| pm_applet/app_qt5.py:340-358 | each entry is inserted before the action at its slot index, counting the empty slots skipped | no battery and a line power: the line-power entry goes before the menu's second action, below the first | device entries head the menu in slot order | not executed; high | Power.InsertAsWrittenSkipsFirst | Power.InsertHeadsMenu |
