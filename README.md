# mobius backup trigger, modelled in Dafny

mobius is a small Go HTTP server. A request to `/backup.do?cluster=<id>`:

1. picks a live etcd discovery endpoint from the comma-separated `DISCOVERY_SERVICE` list;
2. asks that endpoint for `/v2/keys/mysql/<id>/nodes` and picks the member whose state is `ONLINE`;
3. dials that member's capture port and copies the raw stream into
   `<HTTP_DIR>/<id>/<YYYY-MM-DD_HH-MM-SS>.xbstream`;
4. answers with a one-line summary.

This project models those decisions of `server.go`. The outside world is an input value:

- `World.Env` holds the HEAD and GET outcomes by URL.
- It holds the dial, mkdir and open errors by address or path.
- It holds the current time.
- It holds the sequence of `conn.Read` results.

The local file system is a `Storage.Disk` object: a map from path to bytes, plus the free room on the device.

Modules, one per component:

- `Text`: `strings.Split`, `strings.LastIndex` and the key-suffix slice, with `Join`, the inverse used to state the split round-trip.
- `Decimal`: `strconv.Itoa` and `%0Nd`, with the reading that undoes them.
- `Naming`: the timestamp and the backup path.
- `World`: the I/O inputs.
- `Discovery`: `getEtcdServer`.
- `Locator`: `findBackupTarget`.
- `Storage`: the disk object.
- `Capture`: `backupToFile`.
- `Server`: `backupForSnapshot`.
- `Scenarios`: worked examples.

Behaviour of the code worth knowing:

- **No distinct "no discovery service" error.** In `getEtcdServer` the loop's `err` hides the named result, so when no endpoint answers, the function returns `""` with a nil error. The request still ends with "No Available Etcd Host.", because Go's HTTP client refuses a URL with an empty host.
- **The final read error is reported as text.** The capture's outcome is whatever error ended the loop, printed with `err.Error()`, including `EOF` on a clean close. Nothing marks a clean close as different from any other read error.
- **More failure exits.** A failed `MkdirAll` or `OpenFile` ends the capture with that error. A failed write does too.
- **The winning node.** The downward scan leaves the lowest-index `ONLINE` entry in place. If that entry's key ends in `/`, the request fails, even when a higher-index online entry has a usable address.

## Model

| member | source | states |
|---|---|---|
| Text.Split | src/github.com/welyss/mobius/server.go:96 | `strings.Split` on a one-character separator gives at least one piece, even for an empty list. |
| Text.JoinSplit | src/github.com/welyss/mobius/server.go:96 | Joining the comma-split candidate list with commas gives back the configured string. |
| Text.SplitJoin | src/github.com/welyss/mobius/server.go:96 | Splitting a comma-join of comma-free pieces gives back exactly those pieces, in order. |
| Text.SplitPiecesExcludeSeparator | src/github.com/welyss/mobius/server.go:96 | No candidate produced by the split contains a comma. |
| Text.LastIndex | src/github.com/welyss/mobius/server.go:118 | Returns -1 exactly when the key has no '/'. Otherwise it returns a '/' position with no '/' after it. |
| Text.AfterLast | src/github.com/welyss/mobius/server.go:118 | The address contains no '/'. With a '/' in the key, key = prefix + "/" + address. Without one, the address is the whole key. |
| Text.AfterLastOfSuffix | src/github.com/welyss/mobius/server.go:118 | For any prefix + "/" + tail where tail has no '/', the extracted address is exactly tail. |
| Decimal.Digits | src/github.com/welyss/mobius/server.go:87 | `strconv.Itoa` of a byte count is a non-empty string of decimal digits. |
| Decimal.Pad | src/github.com/welyss/mobius/server.go:153 | A `%0wd` field is a string of decimal digits at least w characters long. |
| Decimal.ValueOfDigits | src/github.com/welyss/mobius/server.go:87 | The decimal numeral `strconv.Itoa` writes for a byte count reads back as that count. |
| Decimal.ValueOfPad | src/github.com/welyss/mobius/server.go:153 | A zero-padded `%0Nd` field reads back as the number it encodes. |
| Decimal.PadWidth | src/github.com/welyss/mobius/server.go:153 | A number below 10^w pads to exactly w characters. |
| Naming.Stamp | src/github.com/welyss/mobius/server.go:153 | The `YYYY-MM-DD_HH-MM-SS` stamp is at least 19 characters long. |
| Naming.StampLength | src/github.com/welyss/mobius/server.go:153 | For years 0..9999 the stamp is exactly 19 characters. |
| Naming.StampInjective | src/github.com/welyss/mobius/server.go:153 | Distinct wall-clock readings give distinct stamps, for every year. |
| Naming.BackupPath | src/github.com/welyss/mobius/server.go:148-153 | The path starts with `httpDir + "/" + cluster + "/"`, ends with `.xbstream`, and has at least a 19-character stamp between them. |
| Naming.PathsDistinct | src/github.com/welyss/mobius/server.go:148-153 | Two captures of one cluster with distinct wall-clock readings never write the same file. |
| Discovery.FirstAnswering | src/github.com/welyss/mobius/server.go:96-100 | Gives the index of a candidate that answers, with no earlier candidate answering. Gives none only when no candidate answers. |
| Discovery.FirstAnsweringAt | src/github.com/welyss/mobius/server.go:96-100 | An answering candidate with no earlier answering candidate is the first one answering. |
| Discovery.GetEtcdServer | src/github.com/welyss/mobius/server.go:95-103 | Returns the first candidate, in list order, whose probe succeeds, after exactly that many probes, so no later candidate is probed. With no answer it returns "" after probing all. The error is always nil. |
| Locator.FirstOnline | src/github.com/welyss/mobius/server.go:115-120 | Gives the index of an entry whose value is exactly "ONLINE", with no earlier entry online. Gives none only when no entry is online. |
| Locator.FirstOnlineAt | src/github.com/welyss/mobius/server.go:115-120 | An online entry with no earlier online entry is the winning index. |
| Locator.LaterEntriesIrrelevant | src/github.com/welyss/mobius/server.go:115-120 | Replacing every entry after the smallest-index online one, online or not, leaves the choice unchanged. |
| Locator.Address | src/github.com/welyss/mobius/server.go:118 | A node's address never contains '/'. |
| Locator.WinnerFrom | src/github.com/welyss/mobius/server.go:115-120 | The winner of the list from index i is node i's address when node i is online, and the winner from i+1 otherwise. |
| Locator.ScanNodes | src/github.com/welyss/mobius/server.go:115-120 | The downward overwriting scan ends holding the address of the smallest-index online entry, or "" when none is online. |
| Locator.FindBackupTarget | src/github.com/welyss/mobius/server.go:105-129 | Fails with "No Available Etcd Host." exactly when one of these holds: the query failed, was not 200 or could not be read; `node.nodes` is absent; no entry is online; or the winning address is empty. It also fails whenever no discovery endpoint answers. Otherwise it returns the winning, non-empty address. |
| Storage.Disk.Create | src/github.com/welyss/mobius/server.go:155 | Creating with truncation leaves the file empty, returns its old bytes to the device, and changes no other file. |
| Storage.Disk.Write | src/github.com/welyss/mobius/server.go:165 | Appends as many bytes as the device still holds. It reports an error exactly when the write was short. |
| Capture.FirstFailure | src/github.com/welyss/mobius/server.go:160-173 | Gives the first failing read at or after a position; every read before it succeeded. |
| Capture.DeliveredAppend | src/github.com/welyss/mobius/server.go:160-169 | Over successful reads, the delivered bytes are the chunks concatenated in order. |
| Capture.FailedReadDiscarded | src/github.com/welyss/mobius/server.go:162-171 | Bytes returned together with a read error, and everything read after it, are never delivered. |
| Capture.Copied | src/github.com/welyss/mobius/server.go:160-169 | The file's bytes are a prefix of the delivered bytes and never exceed the device room. They are all of the delivered bytes when those fit. |
| Capture.ReachedEnd | src/github.com/welyss/mobius/server.go:162-171 | Reaching the failing read with all writes fitting means the file holds every delivered byte, and the result is that read's error. |
| Capture.ShortWrite | src/github.com/welyss/mobius/server.go:165-168 | A write cut short leaves exactly the first `room` delivered bytes, and the result is the write error. |
| Capture.CopyStream | src/github.com/welyss/mobius/server.go:160-173 | The file ends with the copied bytes appended; `length` equals the bytes written. The result is the failing read's error, or the write error. No other file changes. |
| Capture.Expected | src/github.com/welyss/mobius/server.go:131-175 | Every exit carries a non-nil error. A dial failure gives an empty file name and length 0. A named file is the dated backup path. A non-zero length is the whole delivered stream, unless a write failed. |
| Capture.BackupToFile | src/github.com/welyss/mobius/server.go:131-175 | Returns `Expected`'s outcome. The disk changes only when dial, mkdir and open all succeed. Then the dated file holds exactly the copied bytes, no other file changes, and the free room is the room after truncation less the bytes written. |
| Server.Report | src/github.com/welyss/mobius/server.go:87 | The summary starts with "Backup From " and ends with ", File Size: " followed by the byte count. |
| Server.ReportSize | src/github.com/welyss/mobius/server.go:87 | The size at the end of the summary reads back as the byte count. |
| Server.BackupForSnapshot | src/github.com/welyss/mobius/server.go:80-92 | With no target, the answer is "No Available Etcd Host." and the disk is untouched. Otherwise it is the summary of the capture from `target:ncatPort`, whose error is never nil, so `err.Error()` is defined. When dial, mkdir and open succeed, the dated file holds exactly the copied bytes, no other file changes, and the free room is the room after truncation less the bytes copied; otherwise the disk is untouched. |
| Scenarios.SecondEndpointChosen | src/github.com/welyss/mobius/server.go:95-103 | For a list like "a:2379,b:2379" where only the second answers, the second is chosen. |
| Scenarios.LowestOnlineWins | src/github.com/welyss/mobius/server.go:115-120 | With OFFLINE, ONLINE, ONLINE entries, entry 1 wins and its address is "10.0.0.2". |
| Scenarios.NonOkStatusMeansNoHost | src/github.com/welyss/mobius/server.go:109-127 | A node query answered with any status other than 200 leaves no target. |
| Scenarios.ClosedAfterOneChunk | src/github.com/welyss/mobius/server.go:160-173 | 1024 bytes followed by a clean close give a 1024-byte file and "EOF" as the reported state. |

## Left out

- HTTP serving (`main`, `http.FileServer`, `ListenAndServe`, lines 58-65): framework plumbing with no decisions.
- Environment defaults in `init` (lines 36-56): the settings are the fields of `Server.Config`.
- `recover` and logging (lines 70-79): a sequential model has no panics to catch and no log to write.
- Goroutine-per-request concurrency: each request is modelled on its own. Concurrent requests for one cluster touch different files when their wall-clock readings differ (`Naming.PathsDistinct`).
- Real HTTP, TCP, file-system and clock calls: they are inputs in `World.Env`. The one rule kept is that Go's HTTP client fails the URL built from an empty candidate; other candidates whose host parses empty (such as "/" or "?x") are left to `World.Env`; `World.NoHostInUrl` is the inner transport error only, not the `*url.Error` text that also names the method and URL.
- JSON parsing by gjson: the reply body is either unreadable or a document whose `node.nodes` array is present or absent. Entries are (key, value) string pairs; a missing field counts as the empty string, as gjson's `String()` returns.
- Capture.CopyStream: requires the stream to contain a failing read. The source loop never ends while every read and every write succeeds; a closed connection is such a failing read (`io.EOF`).
- Capture.WellFormed: requires a positive buffer size and chunks no larger than the buffer. The ignored `strconv.Atoi` error at line 146 could give a zero-size buffer, and the loop would then spin forever. A negative `RW_BUFFER_SIZE` is not modelled either (`Server.Config.rwBufSize` is a `nat`): `strconv.Atoi` returns it, `make([]byte, bufSize)` at line 147 panics after a successful dial, the `recover` at lines 70-79 swallows the panic, the response is empty and no directory or file is created.
- Storage.Disk.Write: the only write failure modelled is a full device, which gives a short write. Other I/O errors, file permissions and the `0644` directory mode are not modelled.
- The commented-out read timeout (lines 139-145): dead code.
- Naming.Valid: years before 0 are not modelled. Go would render them with a minus sign.
- Naming.DateTime: the clock is modelled by its local wall-clock fields. At a daylight-saving fall-back the same hour happens twice, so two captures an hour apart can get the same path, and the second truncating open empties the first backup; `Naming.PathsDistinct` covers distinct readings only.
- Strings are sequences of characters, not bytes. Every separator the code looks for is ASCII, so the two views agree on them.
