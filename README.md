# nginx-httpE2Ban detector core in Dafny

nginx-httpE2Ban is an intrusion-prevention sidecar for nginx. It follows the
access log, keeps a sliding window of error responses per client address and
status code, and bans a client whose window holds more events than the policy
allows. A ban appends an entry to the `banned.conf` deny list and asks nginx to
reload.

This project models the three pieces of sequential logic in `main.py` and
proves properties about them:

- **Access-log line splitter** (`AccessLog`, helped by `Text`). This is the
  whitespace branch of `TailHandler.format_as_json`. It models Python's
  `str.split()`, `str.strip(chars)` and `" ".join` as functions, then maps the
  fields of the line to a `LogRecord`.
- **Sliding-window counter and ban decision** (`Window`, `Detector`).
  - `Window.Evict` specifies the front-eviction loop.
  - `Detector.TailHandler` is a class. Its field `errors` is a
    `map<(string, string), seq<int>>`, one window per (ip, status) pair.
  - `RecordError` contains the `while` loop that evicts from the front, proved
    against `Evict`. It returns whether a ban fires.
  - `OnLine` is the per-line filter of `on_modified`.
- **Deny-list editor** (`DenyList`). `is_ip_on_file` is a predicate over the
  file's text. `block_ip` is the method `BannedConf.BlockIp`:
  - the file is a field `lines: seq<string>`, the lines as `readlines`
    returns them;
  - `present` says whether the file can be opened;
  - `reloads` counts the reloads it requests.

Clocks and time parsing are parameters:
- `now` stands for `datetime.now()` and `epoch` for `int(time.time())`, both
  in epoch seconds. Log timestamps are whole seconds, and the model takes
  policy windows as whole seconds too. `now` is the current time rounded UP
  to a whole second. For an integer event time `t`, `t < now - window` then
  holds exactly when it holds for the unrounded clock. So the model evicts
  exactly the events Python evicts. The event that
  `Window.EvictDropsStalePrefix` keeps at the cutoff `now - window` is one
  Python also keeps;
- `parseTime` stands for `strptime` plus `astimezone`. It returns `None` where
  `strptime` raises.

What the code does and does not do:
- The code takes no file lock and writes the file in place, without a
  temporary file.
- The code does not check that the last line is the closing marker. `pop()`
  drops whatever the last line is. `DenyList.BlockKeepsOtherBans` assumes a
  closing last line; the other lemmas do not.
- The code does not keep windows in time order. Eviction looks only at the
  front, so an out-of-order older event survives
  (`Window.OutOfOrderEventSurvives`). Exactness holds on time-ordered windows
  (`Window.EvictSortedKeepsInWindow`).
- `record_error` calls `block_ip` on every over-limit event, not only the
  first. Only `is_ip_on_file` makes the repeat a no-op.
- This code has no ban expiry (TTL).

## Model

| member | source | states |
|---|---|---|
| `Text.SplitYieldsTokens` | main.py:34 | every field of `line.split()` is non-empty and has no whitespace |
| `Text.SplitJoin` | main.py:34 | round trip: splitting tokens joined by single spaces gives back exactly those tokens, in order |
| `Text.StripUnwraps` | main.py:42-45 | `strip(chars)` removes exactly the surrounding characters of the set: a core whose ends are outside the set comes back unchanged |
| `AccessLog.Format` | main.py:34-48 | the record is the error record `{"error": "Invalid line"}` exactly when the line has fewer than 9 fields; otherwise ip, url and status code are single fields and the user agent splits back into fields 9 onwards |
| `AccessLog.StatusCode` | main.py:27 | `get("status_code")` is present exactly for split records and is their status field; an error record has none |
| `AccessLog.FormatOfTokens` | main.py:24-48 | for a line of at least 9 single-space-joined tokens, with or without the trailing `\n` that `for line in self.file` leaves on it: ip is field 0, datetime is fields 3 and 4 joined by a space and stripped of `[`/`]`, request and http_version are fields 5 and 7 stripped of `"`, url is field 6, status is field 8, user agent is fields 9 onwards joined by spaces |
| `AccessLog.FormatIgnoresNewline` | main.py:24-34 | the trailing `\n` of a line read from the log never changes the record |
| `Text.SplitTrailingSpace` | main.py:34 | a trailing whitespace character never changes the fields of `split()` |
| `AccessLog.CombinedLogFields` | main.py:24-48 | for any line (any spacing, any trailing newline) whose fields are those of nginx combined format, each named key gets the intended value: time and zone without brackets, verb and version without quotes, the tail as the user agent |
| `AccessLog.AsWrittenLosesEveryEntry` | main.py:31-63 | as written, with no JSON map set, every line of 9 or more fields raises instead of returning its record; only error records are returned, and those have no status code |
| `Window.EvictDropsStalePrefix` | main.py:75-78 | the window after eviction is a suffix of the queue; every event dropped was strictly before `now - window`; the new oldest event is at or after it, so an event exactly at the cutoff is kept |
| `Window.SortedWindowInside` | main.py:75-78 | on a time-ordered queue, every event left after eviction is at or after the cutoff |
| `Window.EvictSortedKeepsInWindow` | main.py:72-80 | on a time-ordered queue, eviction keeps exactly the events at or after the cutoff, so the window length counts the recorded events inside the window |
| `Window.EvictIdempotent` | main.py:75-78 | evicting again against the same cutoff changes nothing |
| `Window.RecordedStaysSorted` | main.py:72-78 | appending an event no older than the newest keeps the window in time order through eviction |
| `Window.BanThreshold` | main.py:80-84 | when every event is inside the window, the call bans iff the count exceeds `limit`: `limit` events do not ban, `limit + 1` do |
| `Window.OutOfOrderEventSurvives` | main.py:72-78 | eviction only inspects the front: an older event appended after a newer one stays even when it is before the cutoff |
| `Detector.ShortLineNotTracked` | main.py:27-29 | a line of fewer than 9 fields gives an error record that no policy tracks, so it never reaches `record_error` |
| `Detector.TailHandler.constructor` | main.py:14-19 | a new handler keeps the policy and starts with no windows |
| `Detector.TailHandler.RecordError` | main.py:65-84 | the (ip, status) window becomes the old window plus the event, with the stale front evicted; every other window is unchanged; the result is "window length > limit"; on a ban the deny list changes as `block_ip` does, otherwise it is untouched |
| `Detector.TailHandler.OnLine` | main.py:22-29 | a line whose record is untracked, or whose datetime does not parse, changes no counter and no file; any other line is recorded under its ip and status code, with the ban and deny-list effect of `record_error` |
| `DenyList.AbsentCharNotOnFile` | main.py:125-126 | an address containing a character the file lacks is not found |
| `DenyList.DelimitedIsFound` | main.py:125-126 | by the corrected test `OnFile`, an address with non-word characters, or the text's ends, on both sides is found |
| `DenyList.BlockedText` | main.py:137-143 | the rewritten file's text is the kept lines, then `"    " + ip + " 1; #" + epoch + "\n"`, then `}` |
| `DenyList.BlockedListsIp` | main.py:125-140 | after the rewrite the corrected test `OnFile` finds the address, whatever its characters |
| `DenyList.BlockStepIdempotent` | main.py:133-146 | with the corrected test `OnFile`, once `block_ip` has written an entry for an address, a later call for it writes nothing and requests no reload |
| `DenyList.BlockStepAsWrittenIdempotent` | main.py:121-146 | with the `\b` test as written, the same holds for every address that starts and ends with a word character, every IPv4 address among them |
| `DenyList.BlockedKeepsFrame` | main.py:137-141 | the rewrite keeps the header first and the old interior lines in order, puts the entry after them, ends with `}`, and adds exactly one line |
| `DenyList.BlockKeepsOtherBans` | main.py:137-143 | when the last line is the closing brace, an address listed before the rewrite is still listed after it |
| `DenyList.AsWrittenAgreesOnWordEnds` | main.py:125-126 | for an address that starts and ends with a word character (every IPv4 address), the `\b` test as written and the intended test agree |
| `DenyList.ColonIpMissedAsWritten` | main.py:125-126 | the `\b` test as written does not find `::1` in its own entry line |
| `DenyList.ColonIpBannedTwice` | main.py:133-143 | as written, a second ban of `::1` appends a second entry; the intended test writes nothing |
| `DenyList.BannedConf.BlockIp` | main.py:133-146 | writes the entry and requests one reload exactly when the file opens, is non-empty and does not list the address; otherwise it changes neither the lines nor the reload count |

## Findings

| source | as written | input that shows it | evidently intended | confidence | as-written member | corrected member |
|---|---|---|---|---|---|---|
| main.py:40-55 | The split branch builds `log_data` but has no `return` or `else`. Control falls into the JSON block: `json.loads(None)` raises a caught TypeError, then line 55 reads the unbound `log_received`. | any line with at least 9 fields while `NGINX_LOG_JSON_MAP` is unset, e.g. an nginx combined-format line | return the split record | high, not executed | `AccessLog.FormatAsWritten` (lemma `AccessLog.AsWrittenLosesEveryEntry`) | `AccessLog.Format` (lemmas `AccessLog.FormatOfTokens`, `AccessLog.CombinedLogFields`) |
| main.py:125 | `\b` + ip + `\b` needs a word/non-word change at both ends. An address that starts or ends with `:` is never found in its own entry `    ::1 1; #...`, so every ban appends another entry. | ip `::1` banned twice, file `}` | address occurs with no word character on either side | high, not executed | `DenyList.OnFileAsWritten` (lemmas `DenyList.ColonIpMissedAsWritten`, `DenyList.ColonIpBannedTwice`) | `DenyList.OnFile` (lemmas `DenyList.BlockStepIdempotent`, `DenyList.AsWrittenAgreesOnWordEnds`) |

The detector and the deny-list class use the corrected members. For every
IPv4 address both membership tests agree (`DenyList.AsWrittenAgreesOnWordEnds`).
So for IPv4 the class also behaves exactly as the code is written. In
particular, the `block_ip` as written is idempotent for IPv4 too
(`DenyList.BlockStepAsWrittenIdempotent`).

## Left out

- The JSON branch of `format_as_json` (main.py:49-62): it depends on `json.loads` of an environment value and of the line.
- Following the log: `TailHandler.__init__`'s open and seek to the end, the `for line in self.file` iteration, watchdog's `Observer`, and `follow`. These are file-tailing I/O; `OnLine` models the work done for one line.
- `Detector.TailHandler.OnLine`: a `strptime` failure raises out of `on_modified` and abandons the rest of that batch of lines. The model only says the failing line changes nothing.
- `strptime`, `astimezone`, `pytz` and `datetime.now()`: these are the clock and timezone libraries, replaced by the `parseTime`, `now` and `epoch` parameters.
- `reload_nginx`: it runs docker or a custom command and calls `exit(1)` on failure. A reload is modelled as an increment of `BannedConf.reloads`.
- `load_error_config`, `test_nginx_reload` and the `__main__` block: these are environment and file loading, `sleep` and process exit. A policy is assumed to have a `limit` and a `window` for each status code.
- Failures of `open(..., "w")` and `writelines`: the model treats the write as succeeding. A failing read is modelled by `present`.
- `DenyList.BannedConf.BlockIp`: it does not model that the next `readlines` returns the same lines. That holds when the address has no newline, which is always true for a split field.
- `DenyList.IsWordChar`: Python's `\w` also covers non-ASCII letters and digits. The model treats those characters as non-word.
- `print` output, and the programme's lack of ban expiry, file locking or concurrent writers: none of these has behaviour to prove here.
