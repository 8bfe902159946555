# Packet analyzer pipeline: a Dafny model

This project models the core of a three-service network-telemetry pipeline:

* the **capture service** classifies each captured frame into a metadata
  dictionary (`packet_to_meta`) and forwards the dictionaries through a
  buffering `Poster` that flushes on batch size or elapsed time;
* the **parser service** tags each dictionary as parsed and forwards it to the
  persistor with up to ten attempts (`parse_packet`, `send_to_persistor`);
* the **persistor service** creates the `packets` table if needed and appends
  one row of five TEXT fields per request (`store_packet`);
* the **analyzer service** answers three read-only queries over that table
  (`/packets`, `/packet_timeline`, `/protocol_summary_chart`) and owns a schema
  manager (`init_db`) that adds columns if they are absent.

Frames, dictionaries, tables and column lists are immutable values; the clock,
the network and the database's failures are parameters. Modules follow the
services: `Capture`, `Forwarder` (the `Poster` class), `Parser`, `Persistor`,
`Analyzer`, `Schema` (`init_db`), with `Histogram` (the `Counter`/`GROUP BY`
counting), `SqlText` (nullable TEXT cells and Python's string order), `Json`,
`Http`, `Wrappers`, and `Pipeline`, which puts the services side by side.

Putting the services side by side shows a gap between them. The classifier
never emits `summary` or `time` keys, but `store_packet` reads both. Every
classified frame is therefore refused with `KeyError('summary')`, and the table
is left unchanged (`Pipeline.LiveRecordRejected`). The parser treats the
resulting HTTP 500 as a delivery, because only exceptions are retried, and
still answers `{"status": "ok"}` (`Pipeline.Ingest`).

The model follows the code, including what the code does not do:

* the user interface calls analyzer endpoints that the analyzer does not
  define: `/protocol_summary`, `/filter` and `/all_protocols`
  (ui-service/app.py:72, 77, 99, 115, 124). The analyzer serves only
  `/protocol_summary_chart`, `/packets` and `/packet_timeline`
  (analyzer-service/analyzer.py:39, 68, 90);
* the user interface posts `/start_sniffing` and `/stop_sniffing` to the
  capture service (ui-service/app.py:45, 56). The capture service is a
  command-line sniff loop with no HTTP server (capture-service/capture.py:109-139);
* the classifier reads only the IPv4, TCP, UDP and ICMP layers
  (capture-service/capture.py:23-74). It extracts no ARP or IPv6 addresses
  and no DNS query names, and it labels a frame by its layer, never by its port;
* the persistor commits after each insert and never rolls back
  (persistor-service/persistor.py:34-41).

Each file's own column names are kept. The
persistor and analyzer use `dest_ip`/`time`; `init_db` uses `dst_ip`/`timestamp`.

## Model

| member | source | states |
|---|---|---|
| Capture.PacketToMeta | capture-service/capture.py:23-74 | Only header keys are emitted. Addresses come from the IPv4 header, or are null without one. The protocol is chosen TCP, then UDP, then ICMP, then the outer layer's name, so it is always set. Ports appear exactly for TCP/UDP classifications and ICMP type/code exactly for ICMP ones. |
| Capture.PayloadNeverCarried | capture-service/capture.py:73-74 | Changing the payload bytes never changes the metadata. |
| Forwarder.NewPoster | capture-service/capture.py:77-83 | A new forwarder starts with an empty buffer, flushed as of construction time. |
| Forwarder.Flush | capture-service/capture.py:91-107 | An empty buffer changes nothing, including the flush time. Otherwise exactly one POST is made: `buffer[0]` when the batch size is 1, else the whole buffer in order. The buffer is then cleared and the flush time reset whatever the outcome. The log line follows the outcome (error, warning for status >= 300, success count). |
| Forwarder.FlushIgnoresOutcome | capture-service/capture.py:94-107 | The state after a flush and the payload posted do not depend on the POST's outcome. |
| Forwarder.AddAndMaybeFlush | capture-service/capture.py:85-89 | A flush happens exactly when the buffer reaches the batch size or the interval has elapsed. A flush posts the earlier items plus the new one, with nothing lost or duplicated. With batch size >= 1, a buffer shorter than the batch stays shorter. |
| Forwarder.Offer | capture-service/capture.py:85-89 | One call moves the new item, and any buffered ones, into a POST or leaves them buffered, in order. |
| Forwarder.Run | capture-service/capture.py:85-107 | Over any sequence of arrivals, the items posted followed by the items still buffered are exactly the items added, in arrival order. The buffer stays below the batch size. |
| Parser.Tag | parser-service/parser.py:20 | Sets `parsed` to true and leaves every other key and value unchanged. |
| Parser.SendToPersistor | parser-service/parser.py:7-16 | Makes 1 to 10 POSTs of the same packet. Returns true iff one of the first 10 attempts did not raise, so an HTTP error status counts as success. Stops right after that attempt. Returns false only after 10 raising attempts, with one pause after each failure. |
| Parser.ParsePacket | parser-service/parser.py:18-22 | Forwards the tagged packet and answers `{"status": "ok"}` whether or not forwarding succeeded. |
| Persistor.CreateTable | persistor-service/persistor.py:22-31 | An existing table is kept untouched; otherwise an empty, well-formed table is created. |
| Persistor.FirstMissing | persistor-service/persistor.py:38 | Finds the first missing key in tuple order, or reports none exactly when every key is present. |
| Persistor.StorePacket | persistor-service/persistor.py:34-41 | A missing key raises a KeyError before the insert and leaves the table unchanged. Otherwise exactly one row holding the five values is appended, earlier rows stay unchanged, the new SERIAL id exceeds every existing id, and the reply is `{"status": "stored"}`. |
| Persistor.ExtraKeysIgnored | persistor-service/persistor.py:36-38 | Keys other than the five stored ones do not affect a store. |
| Persistor.StoreAllAppendOnly | persistor-service/persistor.py:34-41 | Over any sequence of requests, the table only grows. Earlier rows are kept, and there is one new row per complete request. |
| Histogram.Tally | analyzer-service/analyzer.py:96-97 | The tally's keys are strictly ascending and exactly the values that occur. Each bucket holds that value's number of occurrences (at least one), and the counts sum to the input length. |
| Histogram.TallyCounts | analyzer-service/analyzer.py:96-98 | Each bucket's count equals the number of occurrences of its key. |
| Analyzer.RecentRows | analyzer-service/analyzer.py:71-75 | Returns min(50, rows) rows in strictly descending id order, all from the table. Every row left out has a lower id than every row returned. |
| Analyzer.View | analyzer-service/analyzer.py:77-87 | A listed record has exactly the keys id, src_ip, dest_ip, protocol, summary and time, each copied from the row. |
| Analyzer.Packets | analyzer-service/analyzer.py:68-87 | `/packets` returns at most 50 records: the views of the most recent rows, newest first. |
| Analyzer.PacketTimeline | analyzer-service/analyzer.py:90-98 | Fails exactly when a null time and a string time both occur among the 50 most recent rows, since `sorted` cannot compare them. Otherwise the times are strictly ascending and exactly the times that occur. The counts run parallel to them, each count is its time's number of occurrences (at least 1), and the counts sum to min(50, rows). |
| Analyzer.MixedIffNullFirst | analyzer-service/analyzer.py:96-97 | A null and a string both occur exactly when the sorted tally starts with null and has a second key. |
| Analyzer.ProtocolSummaryChart | analyzer-service/analyzer.py:39-66 | Without a protocol column the chart is `["Unknown"]`/`[0]`; with no rows it is `["No Data"]`/`[0]`. Otherwise the chart is the GROUP BY result in some order: one entry per distinct protocol value (null and empty string included), labelled with the protocol or "Unknown", and counting exactly that value's rows. Hence the counts are positive and sum to the row count, every non-empty protocol is labelled, and only "Unknown" can repeat. |
| Analyzer.AllNullOneGroup | analyzer-service/analyzer.py:50-64 | When every protocol is null, any chart that groups them is the single entry "Unknown" counting all rows. |
| Analyzer.NamedGroupsCount | analyzer-service/analyzer.py:50-64 | A group labelled with a non-empty protocol counts exactly the rows carrying that protocol. |
| Analyzer.LabelsCover | analyzer-service/analyzer.py:50-63 | Every non-empty protocol that occurs appears among the labels, and "Unknown" appears as soon as a null or empty protocol occurs. |
| Analyzer.OnlyUnknownRepeats | analyzer-service/analyzer.py:50-63 | With distinct group keys, two groups share a label only when both are "Unknown" (the null group and the empty-string group). |
| Schema.CreateIfAbsent | analyzer-service/db_init.py:13-22 | An existing table is kept as it is; otherwise the six base columns are created. |
| Schema.AddIfAbsent | analyzer-service/db_init.py:26-29 | The column exists afterwards. An existing name leaves the table unchanged, a new name is appended, and no duplicate names are introduced. |
| Schema.ApplyIsolated | analyzer-service/db_init.py:32-36 | Each alter runs in its own transaction. Every alter is attempted in list order, and exactly the rejected ones are skipped. Existing columns are kept unchanged and in place. Each new column comes from an accepted alter whose name was absent, so a rejected alter adds nothing. Every accepted alter's column exists afterwards. |
| Schema.ApplyIsolatedDistinct | analyzer-service/db_init.py:25-36 | Applying the alters never creates duplicate column names. |
| Schema.InitDb | analyzer-service/db_init.py:8-41 | The intended reading, with one transaction per statement; the code as written is `Schema.InitDbAsWritten`. The table exists afterwards. The earlier column list (or the base columns) is a prefix of the result, so nothing is removed. Every added column is one of the four alters, accepted, and absent before. Every column whose alter is accepted exists. The log has one entry per alter, in order. |
| Schema.InitDbNoDuplicates | analyzer-service/db_init.py:8-41 | A table without duplicate columns still has none afterwards. |
| Schema.RequiredColumnsExist | analyzer-service/db_init.py:25-30 | With no failures, src_port, dst_port, dns_query and source all exist afterwards. |
| Schema.SourceDefaultsToLive | analyzer-service/db_init.py:29 | A `source` column added by the run defaults to 'LIVE'. |
| Schema.ApplyIsolatedStable | analyzer-service/db_init.py:32-36 | When every accepted alter's column already exists, the alters change nothing. |
| Schema.InitDbIdempotent | analyzer-service/db_init.py:13-36 | Running `init_db` twice gives the same table as running it once. |
| Schema.CompleteTableUntouched | analyzer-service/db_init.py:25-36 | A table that already has all four columns is left exactly as it is, whatever fails. |
| Schema.ApplyInTransaction | analyzer-service/db_init.py:32-38 | In one shared transaction, every alter is still attempted in order. The transaction fails iff some alter is rejected, and afterwards every statement is refused. Without a rejection the result equals the isolated run. |
| Schema.InitDbAsWritten | analyzer-service/db_init.py:8-41 | As the code runs, any rejected alter leaves the catalog exactly as before, because the commit becomes a rollback. Without a rejection the result equals `InitDb`. |
| Schema.EarlyFailureAddsNothing | analyzer-service/db_init.py:32-38 | On any existing table with the first alter rejected, the code as written leaves the columns exactly as they were, and the three later alters are refused as aborted. The isolated version adds the three other columns. |
| Schema.FirstAlterFailureLosesTable | analyzer-service/db_init.py:32-38 | On a fresh database with the first alter rejected, the code as written ends with no table, and the three later alters are refused as aborted. The isolated version creates the table and the three other columns. |
| Pipeline.MetaLacksSummaryAndTime | persistor-service/persistor.py:38 | A classified, tagged record has src_ip, dest_ip and protocol but never summary or time. |
| Pipeline.LiveRecordRejected | persistor-service/persistor.py:36-38 | Storing any classified record fails with KeyError('summary') and leaves the table unchanged. |
| Pipeline.Ingest | parser-service/parser.py:7-22 | With the persistor up, a classified frame is reported delivered and answered "ok", yet the table is unchanged. |
| Pipeline.StoredRecordListedFirst | analyzer-service/analyzer.py:71-87 | After a complete store, `/packets` lists the new record first with the five stored values. Its id differs from every earlier row's id. |
| Pipeline.TextRoundTrip | persistor-service/persistor.py:25-29 | String and null values read back exactly as they were sent. |

## Left out

- Capture `main` (capture-service/capture.py:109-139): argument parsing, the sniff loop, signal handling and console output. `Forwarder.Run` stands for the repeated `add_and_maybe_flush` calls.
- Capture.PacketToMeta: scapy's layer lookup is abstracted. A frame holds the first occurrence of each IPv4, TCP, UDP and ICMP layer, plus its name and length. `len(pkt)`, `pkt.name` and `str(tcp.flags)` are taken as given strings and numbers.
- Capture.PacketToMeta: `time.time()` is a float, but `time_epoch` is modelled as whole seconds (`Int`), and JSON values have no float case. Nothing downstream reads `time_epoch`.
- Forwarder.AddAndMaybeFlush: wall-clock float time is replaced by integer ticks. The two clock readings of one call (the check and the reset) are separate parameters.
- JSON serialisation and HTTP transport are abstracted. A POST is one outcome: a status code or a raised exception. A batch (list) payload posted to `/parse`, which expects a single dictionary, is not followed further.
- Parser.SendToPersistor: the sleep durations and the POST timeout are not modelled; a timeout is a raised attempt.
- The startup database-connect retry loops (persistor-service/persistor.py:10-19, analyzer-service/analyzer.py:21-36) are bootstrap I/O.
- Persistor.StorePacket: the SQL engine is a sequence of rows. Values land in TEXT columns as null, the string, decimal text or 'true'/'false'. Insert failures other than a missing key are not modelled, such as a lost connection or the transaction that the persistor then leaves open.
- Analyzer.RecentRows: requires the table invariant that ids ascend in insertion order and stay below the SERIAL counter. Every table built by `CreateTable` and `StorePacket` satisfies it. `ORDER BY id DESC` over a table with ids out of insertion order is outside the model.
- Analyzer.ProtocolSummaryChart: SQL leaves the order of GROUP BY rows open. The model lists groups in ascending key order, and the stated properties do not depend on the order. The defensive `len(r)` checks are not modelled, because a GROUP BY row always has two fields. Neither is the error a missing table would raise.
- Schema.InitDb: an error in `CREATE TABLE` propagates out of `init_db` and is not modelled. Server-side failures of an alter are a parameter: the set of column names whose alter is rejected.
- db_config.py (environment lookup and a DNS probe), ui-service/app.py, ui/src/App.jsx and sample-pcaps/fetch_pcaps.py are configuration, presentation and download code.

## Findings

| source | as written | input that shows it | evidently intended | confidence | as-written member | corrected member |
|---|---|---|---|---|---|---|
| analyzer-service/db_init.py:32-38 | The CREATE and every alter share the connection's single transaction, since autocommit is off. A failing alter is caught, but the server then refuses every later statement, and `commit()` on the failed transaction rolls back, including the CREATE. | An existing table that lacks the added columns, on which the first alter (`src_port`) is rejected, for example by a lock timeout while another session holds the table: none of the other three columns is added, and they are logged as skipped. On a database without the table, the same rejection also loses the CREATE. | A failing alter is skipped with a warning, and the CREATE and the remaining alters still take effect. | medium, not executed; relies on PostgreSQL aborting a transaction after an error and on psycopg2's commit ending it with a rollback | Schema.InitDbAsWritten, Schema.EarlyFailureAddsNothing, Schema.FirstAlterFailureLosesTable | Schema.InitDb |
