/**
 * `TailHandler`: the per-line work of `on_modified` (parse, keep only status
 * codes the policy names) and `record_error` (append to the (ip, status)
 * window, evict from the front, ban when the window holds more than `limit`
 * events). The clock and `strptime` are parameters: `now` and `epoch` are the
 * values of `datetime.now()` and `time.time()` in epoch seconds, and
 * `parseTime` gives the epoch second of a log datetime, or `None` where
 * `strptime` raises.
 */
module Detector {
  import opened Wrappers
  import opened Text
  import opened AccessLog
  import opened Window
  import opened DenyList

  /** The filter of `on_modified`: `json_data.get("status_code") in self.error_config`. */
  predicate Tracked(r: LogRecord, policy: map<string, Rule>) {
    StatusCode(r).Some? && StatusCode(r).value in policy
  }

  /** A line of fewer than nine fields is never counted, whatever the policy. */
  lemma ShortLineNotTracked(line: string, policy: map<string, Rule>)
    requires |Split(line)| < 9
    ensures Format(line).Invalid?
    ensures !Tracked(Format(line), policy)
  {
  }

  class TailHandler {
    /** `error_config`: the policy, one rule per status code. */
    const policy: map<string, Rule>
    /** `self.errors[ip][status_code]`, keyed by the pair; a missing key is an empty deque. */
    var errors: map<(string, string), seq<int>>

    constructor (policy: map<string, Rule>)
      ensures this.policy == policy && errors == map[]
    {
      this.policy := policy;
      errors := map[];
    }

    /** The window of one (ip, status) pair. */
    function WindowOf(ip: string, status: string): seq<int>
      reads this
    {
      if (ip, status) in errors then errors[(ip, status)] else []
    }

    /**
     * `record_error` for an event at time `t`: the (ip, status) window becomes
     * the old window with `t` appended and the stale front evicted against
     * `now - window`; no other window changes. The result says whether the
     * window now holds more than `limit` events, in which case `block_ip`
     * runs at time `epoch`; otherwise the deny list is untouched.
     */
    method RecordError(ip: string, status: string, t: int, now: int, epoch: int, conf: BannedConf)
      returns (ban: bool)
      requires status in policy
      modifies this, conf
      ensures errors == old(errors)[(ip, status) := Recorded(old(WindowOf(ip, status)), t, now, policy[status])]
      ensures ban == Bans(WindowOf(ip, status), policy[status])
      ensures conf.present == old(conf.present)
      ensures ban ==> conf.lines == BlockStep(old(conf.present), old(conf.lines), ip, epoch).GetOr(old(conf.lines))
      ensures ban ==> conf.reloads
                      == old(conf.reloads) + (if BlockStep(old(conf.present), old(conf.lines), ip, epoch).Some? then 1 else 0)
      ensures !ban ==> unchanged(conf)
    {
      var key := (ip, status);
      var rule := policy[status];
      ghost var appended := WindowOf(ip, status) + [t];
      errors := errors[key := WindowOf(ip, status) + [t]];
      var cutoff := now - rule.window;
      while errors[key] != [] && errors[key][0] < cutoff
        invariant key in errors
        invariant errors == old(errors)[key := errors[key]]
        invariant Evict(errors[key], cutoff) == Evict(appended, cutoff)
        modifies this
        decreases |errors[key]|
      {
        errors := errors[key := errors[key][1..]];
      }
      ban := |errors[key]| > rule.limit;
      if ban {
        var _ := conf.BlockIp(ip, epoch);
      }
    }

    /**
     * `on_modified` for one line: a line whose record is not tracked by the
     * policy, or whose datetime `strptime` rejects, changes nothing; any other
     * line is recorded for its ip and status code.
     */
    method OnLine(line: string, parseTime: string -> Option<int>, now: int, epoch: int, conf: BannedConf)
      returns (ban: bool)
      modifies this, conf
      ensures var r := Format(line);
        !Tracked(r, policy) || parseTime(r.datetime).None? ==>
          errors == old(errors) && !ban && unchanged(conf)
      ensures var r := Format(line);
        Tracked(r, policy) && parseTime(r.datetime).Some? ==>
          && errors == old(errors)[(r.ipAddress, r.statusCode) :=
                                   Recorded(old(WindowOf(r.ipAddress, r.statusCode)), parseTime(r.datetime).value,
                                            now, policy[r.statusCode])]
          && ban == Bans(WindowOf(r.ipAddress, r.statusCode), policy[r.statusCode])
      ensures conf.present == old(conf.present)
      ensures ban ==> conf.lines
                      == BlockStep(old(conf.present), old(conf.lines), Format(line).ipAddress, epoch).GetOr(old(conf.lines))
      ensures ban ==> conf.reloads
                      == old(conf.reloads)
                         + (if BlockStep(old(conf.present), old(conf.lines), Format(line).ipAddress, epoch).Some? then 1 else 0)
      ensures !ban ==> unchanged(conf)
    {
      var r := Format(line);
      var status := StatusCode(r);
      ban := false;
      if status.Some? && status.value in policy {
        var stamp := parseTime(r.datetime);
        if stamp.Some? {
          ban := RecordError(r.ipAddress, status.value, stamp.value, now, epoch, conf);
        }
      }
    }
  }

  /**
   * Policy `{"429": {"limit": 2, "window": 60}}`: three 429s from one address
   * within ten seconds ban it once, with one entry and one reload.
   */
  method ThreeErrorsBanOnce() {
    var handler := new TailHandler(map["429" := Rule(2, 60)]);
    var conf := new BannedConf(true, ["geo $banned {\n", "}"]);
    assert Concat(["geo $banned {\n", "}"]) == "geo $banned {\n}" by {
      ConcatAppend(["geo $banned {\n"], "}");
      assert ["geo $banned {\n", "}"] == ["geo $banned {\n"] + ["}"];
    }
    AbsentCharNotOnFile("10.0.0.5", "geo $banned {\n}", 0);
    var ban := handler.RecordError("10.0.0.5", "429", 0, 0, 0, conf);
    assert handler.WindowOf("10.0.0.5", "429") == [0] && !ban;
    ban := handler.RecordError("10.0.0.5", "429", 5, 5, 5, conf);
    assert handler.WindowOf("10.0.0.5", "429") == [0, 5] && !ban;
    ban := handler.RecordError("10.0.0.5", "429", 10, 10, 10, conf);
    assert handler.WindowOf("10.0.0.5", "429") == [0, 5, 10] && ban;
    assert conf.lines == ["geo $banned {\n", EntryLine("10.0.0.5", 10), "}"];
    assert conf.reloads == 1;
  }

  /**
   * Policy `{"429": {"limit": 0, "window": 60}}` and a deny list that already
   * lists the address: the error still exceeds the limit, but `block_ip`
   * writes nothing and requests no reload.
   */
  method ListedAddressNotWrittenAgain() {
    var handler := new TailHandler(map["429" := Rule(0, 60)]);
    var lines := Blocked(["geo $banned {\n", "}"], "10.0.0.5", 10);
    var conf := new BannedConf(true, lines);
    BlockedListsIp(["geo $banned {\n", "}"], "10.0.0.5", 10);
    var ban := handler.RecordError("10.0.0.5", "429", 11, 11, 11, conf);
    assert ban && conf.lines == lines && conf.reloads == 0;
  }

  /** Same policy: two 429s seventy seconds apart never ban; the first is evicted. */
  method SpacedErrorsDoNotBan() {
    var handler := new TailHandler(map["429" := Rule(2, 60)]);
    var conf := new BannedConf(true, ["geo $banned {\n", "}"]);
    var ban := handler.RecordError("10.0.0.5", "429", 0, 0, 0, conf);
    assert handler.WindowOf("10.0.0.5", "429") == [0] && !ban;
    assert Evict([0, 70], 10) == Evict([70], 10) == [70];
    ban := handler.RecordError("10.0.0.5", "429", 70, 70, 70, conf);
    assert handler.WindowOf("10.0.0.5", "429") == [70] && !ban;
    assert conf.reloads == 0;
  }
}
