/**
 * The whitespace branch of `TailHandler.format_as_json`: one raw nginx
 * access-log line becomes a record with named fields, or an error record
 * when the line has fewer than nine fields.
 */
module AccessLog {
  import opened Wrappers
  import opened Text

  /** The dict the split branch builds: either the error record or the seven named fields. */
  datatype LogRecord =
    | Invalid(error: string)
    | Entry(ipAddress: string, datetime: string, request: string, url: string,
            httpVersion: string, statusCode: string, userAgent: string)

  const Brackets: set<char> := {'[', ']'}
  const Quote: set<char> := {'"'}

  /**
   * The record of the split branch. In the source this record is built but
   * never returned (see `FormatAsWritten`); the detector uses this function,
   * the evidently intended result.
   */
  function Format(line: string): (r: LogRecord)
    ensures r.Invalid? <==> |Split(line)| < 9
    ensures r.Invalid? ==> r.error == "Invalid line"
    ensures r.Entry? ==> IsToken(r.ipAddress) && IsToken(r.url) && IsToken(r.statusCode)
    ensures r.Entry? ==> Split(r.userAgent) == Split(line)[9..]
  {
    var parts := Split(line);
    if |parts| < 9 then Invalid("Invalid line")
    else
      SplitYieldsTokens(line);
      assert AllTokens(parts[9..]) by {
        forall i | 0 <= i < |parts[9..]| ensures IsToken(parts[9..][i]) {
          assert parts[9..][i] == parts[9 + i];
        }
      }
      SplitJoin(parts[9..]);
      Entry(parts[0],
            Strip(parts[3] + " " + parts[4], Brackets),
            Strip(parts[5], Quote),
            parts[6],
            Strip(parts[7], Quote),
            parts[8],
            Join(parts[9..], " "))
  }

  /** `json_data.get("status_code")`. */
  function StatusCode(r: LogRecord): (o: Option<string>)
    ensures o.Some? <==> r.Entry?
    ensures o.Some? ==> o.value == r.statusCode
  {
    match r
    case Invalid(_) => None
    case Entry(_, _, _, _, _, status, _) => Some(status)
  }

  /**
   * The `"\n"` that ends each line read from the log does not change the
   * record: the record depends on the line's fields only.
   */
  lemma FormatIgnoresNewline(line: string)
    ensures Format(line + "\n") == Format(line)
  {
    SplitTrailingSpace(line, '\n');
  }

  /**
   * A line made of tokens joined by single spaces, with or without its
   * trailing newline, has those tokens as its fields in the named keys.
   */
  lemma FormatOfTokens(ts: seq<string>)
    requires AllTokens(ts) && |ts| >= 9
    ensures var r := Entry(ts[0], Strip(ts[3] + " " + ts[4], Brackets), Strip(ts[5], Quote), ts[6],
                           Strip(ts[7], Quote), ts[8], Join(ts[9..], " "));
      Format(Join(ts, " ")) == r && Format(Join(ts, " ") + "\n") == r
  {
    SplitJoin(ts);
    FormatIgnoresNewline(Join(ts, " "));
  }

  /**
   * Any line, however spaced and terminated, whose fields are those of
   * nginx's combined format
   * `ip ident user [time zone] "verb url version" status ...`
   * puts them in the named keys with their brackets and quotes removed; the
   * fields after the status, re-joined with single spaces, become the user
   * agent.
   */
  lemma CombinedLogFields(line: string, ip: string, ident: string, user: string, time: string, zone: string,
                          verb: string, url: string, version: string, status: string,
                          tail: seq<string>)
    requires Split(line) == [ip, ident, user, "[" + time, zone + "]", "\"" + verb, url, version + "\"", status] + tail
    requires time != [] && zone != [] && verb != [] && version != []
    requires time[0] !in Brackets && zone[|zone| - 1] !in Brackets
    requires verb[0] !in Quote && verb[|verb| - 1] !in Quote
    requires version[0] !in Quote && version[|version| - 1] !in Quote
    ensures Format(line) == Entry(ip, time + " " + zone, verb, url, version, status, Join(tail, " "))
  {
    var ts := [ip, ident, user, "[" + time, zone + "]", "\"" + verb, url, version + "\"", status] + tail;
    assert ts[9..] == tail;
    CombinedStrips(time, zone, verb, version);
  }

  lemma CombinedStrips(time: string, zone: string, verb: string, version: string)
    requires time != [] && zone != [] && verb != [] && version != []
    requires time[0] !in Brackets && zone[|zone| - 1] !in Brackets
    requires verb[0] !in Quote && verb[|verb| - 1] !in Quote
    requires version[0] !in Quote && version[|version| - 1] !in Quote
    ensures Strip(("[" + time) + " " + (zone + "]"), Brackets) == time + " " + zone
    ensures Strip("\"" + verb, Quote) == verb
    ensures Strip(version + "\"", Quote) == version
  {
    StripStamp(time, zone);
    StripOpeningQuote(verb);
    StripClosingQuote(version);
  }

  lemma StripStamp(time: string, zone: string)
    requires time != [] && zone != []
    requires time[0] !in Brackets && zone[|zone| - 1] !in Brackets
    ensures Strip(("[" + time) + " " + (zone + "]"), Brackets) == time + " " + zone
  {
    var stamp := time + " " + zone;
    assert stamp[0] == time[0] && stamp[|stamp| - 1] == zone[|zone| - 1];
    Regroup("[", time, " ", zone, "]");
    StripUnwraps("[", stamp, "]", Brackets);
  }

  lemma StripOpeningQuote(verb: string)
    requires verb != [] && verb[0] !in Quote && verb[|verb| - 1] !in Quote
    ensures Strip("\"" + verb, Quote) == verb
  {
    assert "\"" + verb == "\"" + verb + "";
    StripUnwraps("\"", verb, "", Quote);
  }

  lemma StripClosingQuote(version: string)
    requires version != [] && version[0] !in Quote && version[|version| - 1] !in Quote
    ensures Strip(version + "\"", Quote) == version
  {
    assert version + "\"" == "" + version + "\"";
    StripUnwraps("", version, "\"", Quote);
  }

  lemma Regroup(a: string, b: string, c: string, d: string, e: string)
    ensures (a + b) + c + (d + e) == a + (b + c + d) + e
  {
  }

  /** What one call of `format_as_json` does: return a dict, or raise. */
  datatype Outcome = Returned(record: LogRecord) | Raised(exception: string)

  /**
   * `format_as_json` as written, with NGINX_LOG_JSON_MAP unset. The split
   * branch has no `return`, so a line of nine or more fields falls through
   * into the JSON block: `json.loads(None)` raises a TypeError that is caught
   * and printed, and the next statement reads the unbound `log_received`.
   */
  function FormatAsWritten(line: string): Outcome {
    if |Split(line)| < 9 then Returned(Invalid("Invalid line")) else Raised("UnboundLocalError")
  }

  /**
   * As written, every line that the split branch can parse raises instead of
   * returning its record; only error records are ever returned.
   */
  lemma AsWrittenLosesEveryEntry(line: string)
    ensures FormatAsWritten(line).Raised? <==> Format(line).Entry?
    ensures FormatAsWritten(line).Returned? ==> FormatAsWritten(line).record == Format(line)
    ensures FormatAsWritten(line).Returned? ==> StatusCode(FormatAsWritten(line).record) == None
  {
  }
}
