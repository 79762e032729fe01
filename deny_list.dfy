/**
 * The deny-list file (`banned.conf`) and its two operations: `is_ip_on_file`,
 * a word-bounded search for the address in the file's text, and `block_ip`,
 * which replaces the closing `}` line by a new entry followed by `}` and then
 * asks nginx to reload.
 *
 * The file is its list of lines as `readlines` returns them; its text is their
 * concatenation. A reload is counted rather than performed.
 */
module DenyList {
  import opened Wrappers
  import opened Text

  /** Python's `\w`, restricted to ASCII: letters, digits and the underscore. */
  predicate IsWordChar(c: char) {
    ('a' <= c <= 'z') || ('A' <= c <= 'Z') || ('0' <= c <= '9') || c == '_'
  }

  /** There is a word character at position `k` (false outside the text). */
  predicate WordAt(text: string, k: int) {
    0 <= k < |text| && IsWordChar(text[k])
  }

  /** The regex `\b` at position `k`: a word character on exactly one side. */
  predicate BoundaryAt(text: string, k: int) {
    WordAt(text, k - 1) != WordAt(text, k)
  }

  predicate OccursAt(ip: string, text: string, i: int) {
    0 <= i <= |text| - |ip| && text[i..i + |ip|] == ip
  }

  /**
   * `is_ip_on_file` as written: `re.compile(r"\b" + re.escape(ip) + r"\b")`
   * finds a match, i.e. the address occurs with a `\b` boundary at both ends.
   */
  predicate OnFileAsWritten(ip: string, text: string) {
    exists i :: 0 <= i <= |text| - |ip| && OccursAt(ip, text, i) && BoundaryAt(text, i) && BoundaryAt(text, i + |ip|)
  }

  /**
   * The evidently intended membership test: the address occurs with no word
   * character directly before or after it.
   */
  predicate OnFile(ip: string, text: string) {
    exists i :: 0 <= i <= |text| - |ip| && OccursAt(ip, text, i) && !WordAt(text, i - 1) && !WordAt(text, i + |ip|)
  }

  /** The line `block_ip` inserts: `f"    {ip} 1; #{epoch_time}\n"`. */
  function EntryLine(ip: string, epoch: int): string {
    "    " + ip + " 1; #" + Decimal(epoch) + "\n"
  }

  /** `pop()` of the last line, then `append` of the entry and of `"}"`. */
  function Blocked(lines: seq<string>, ip: string, epoch: int): seq<string>
    requires lines != []
  {
    lines[..|lines| - 1] + [EntryLine(ip, epoch), "}"]
  }

  /**
   * What one `block_ip(ip)` writes, with `present` saying whether the file
   * could be opened: `None` when the address is already listed or when opening
   * or `pop()` raised (both caught), else the new lines.
   */
  function BlockStep(present: bool, lines: seq<string>, ip: string, epoch: int): Option<seq<string>> {
    if present && !OnFile(ip, Concat(lines)) && lines != [] then Some(Blocked(lines, ip, epoch))
    else None
  }

  /** `block_ip` with the membership test as written. */
  function BlockStepAsWritten(present: bool, lines: seq<string>, ip: string, epoch: int): Option<seq<string>> {
    if present && !OnFileAsWritten(ip, Concat(lines)) && lines != [] then Some(Blocked(lines, ip, epoch))
    else None
  }

  /** An address with non-word characters (or the text's ends) on both sides is found. */
  lemma DelimitedIsFound(a: string, ip: string, b: string)
    requires a == [] || !IsWordChar(a[|a| - 1])
    requires b == [] || !IsWordChar(b[0])
    ensures OnFile(ip, a + ip + b)
  {
    var text := a + ip + b;
    assert text[|a|..|a| + |ip|] == ip;
    assert OccursAt(ip, text, |a|);
    if a != [] { assert text[|a| - 1] == a[|a| - 1]; }
    if b != [] { assert text[|a| + |ip|] == b[0]; }
  }

  /** An address with a character the text lacks is not on file. */
  lemma AbsentCharNotOnFile(ip: string, text: string, k: nat)
    requires k < |ip| && ip[k] !in text
    ensures !OnFile(ip, text)
  {
    forall i | 0 <= i <= |text| - |ip| ensures !OccursAt(ip, text, i) {
      assert text[i..i + |ip|][k] == text[i + k];
      assert text[i + k] in text;
    }
  }

  /** The text of the rewritten file: the kept lines, the entry, and the closing brace. */
  lemma BlockedText(lines: seq<string>, ip: string, epoch: int)
    requires lines != []
    ensures Concat(Blocked(lines, ip, epoch)) == Concat(lines[..|lines| - 1]) + (EntryLine(ip, epoch) + "}")
  {
    var kept, e := lines[..|lines| - 1], EntryLine(ip, epoch);
    assert Blocked(lines, ip, epoch) == (kept + [e]) + ["}"];
    ConcatAppend(kept + [e], "}");
    ConcatAppend(kept, e);
    Assoc(Concat(kept), e, "}");
  }

  lemma Assoc(a: string, b: string, c: string)
    ensures a + b + c == a + (b + c)
  {
  }

  /** After the rewrite the address is listed, whatever its characters. */
  lemma BlockedListsIp(lines: seq<string>, ip: string, epoch: int)
    requires lines != []
    ensures OnFile(ip, Concat(Blocked(lines, ip, epoch)))
  {
    BlockedText(lines, ip, epoch);
    var p := Concat(lines[..|lines| - 1]);
    var rest := " 1; #" + Decimal(epoch) + "\n}";
    EntryAroundIp(ip, epoch);
    Assoc4(p, "    ", ip, rest);
    assert (p + "    ")[|p + "    "| - 1] == ' ';
    DelimitedIsFound(p + "    ", ip, rest);
  }

  /** The entry line and closing brace, split around the address. */
  lemma EntryAroundIp(ip: string, epoch: int)
    ensures EntryLine(ip, epoch) + "}" == "    " + ip + (" 1; #" + Decimal(epoch) + "\n}")
    ensures (" 1; #" + Decimal(epoch) + "\n}")[0] == ' '
  {
  }

  lemma Assoc4(a: string, b: string, c: string, d: string)
    ensures a + (b + c + d) == (a + b) + c + d
  {
  }

  /**
   * `block_ip` is an idempotent add: once it has written an entry for an
   * address, a later call for the same address writes nothing (and so
   * triggers no reload), at any time.
   */
  lemma BlockStepIdempotent(present: bool, lines: seq<string>, ip: string, epoch: int, later: int)
    requires BlockStep(present, lines, ip, epoch).Some?
    ensures BlockStep(present, BlockStep(present, lines, ip, epoch).value, ip, later) == None
  {
    BlockedListsIp(lines, ip, epoch);
  }

  /**
   * The rewrite keeps the file's frame: from a file of at least a header line
   * and a closing line, the header stays first, the old interior lines stay in
   * order, the entry follows them, and `"}"` is the last line.
   */
  lemma BlockedKeepsFrame(lines: seq<string>, ip: string, epoch: int)
    requires |lines| >= 2
    ensures var r := Blocked(lines, ip, epoch);
      && |r| == |lines| + 1
      && r[0] == lines[0]
      && r[1..|r| - 1] == lines[1..|lines| - 1] + [EntryLine(ip, epoch)]
      && r[|r| - 1] == "}"
  {
  }

  /** The closing line of the deny list as `readlines` returns it. */
  predicate IsClosing(line: string) {
    line == "}" || line == "}\n"
  }

  /**
   * Nothing else is lost: an address listed before the rewrite is listed
   * after it, provided the last line is the closing brace and the address is
   * a token without a brace.
   */
  lemma BlockKeepsOtherBans(lines: seq<string>, ip: string, epoch: int, other: string)
    requires lines != [] && IsClosing(lines[|lines| - 1])
    requires IsToken(other) && '}' !in other
    requires OnFile(other, Concat(lines))
    ensures OnFile(other, Concat(Blocked(lines, ip, epoch)))
  {
    ConcatLast(lines);
    BlockedText(lines, ip, epoch);
    EntryOpensWithSpace(ip, epoch);
    KeptBeforeClosing(Concat(lines[..|lines| - 1]), lines[|lines| - 1], EntryLine(ip, epoch) + "}", other,
                      Concat(lines), Concat(Blocked(lines, ip, epoch)));
  }

  lemma ConcatLast(lines: seq<string>)
    requires lines != []
    ensures Concat(lines) == Concat(lines[..|lines| - 1]) + lines[|lines| - 1]
  {
    assert lines == lines[..|lines| - 1] + [lines[|lines| - 1]];
    ConcatAppend(lines[..|lines| - 1], lines[|lines| - 1]);
  }

  lemma EntryOpensWithSpace(ip: string, epoch: int)
    ensures (EntryLine(ip, epoch) + "}")[0] == ' '
  {
  }

  /**
   * An address found in a text ending in the closing line is still found when
   * that line is replaced by text that starts with a non-word character.
   */
  lemma KeptBeforeClosing(p: string, last: string, y: string, other: string, t: string, n: string)
    requires IsClosing(last) && IsToken(other) && '}' !in other
    requires t == p + last && n == p + y
    requires OnFile(other, t)
    requires y != [] && !IsWordChar(y[0])
    ensures OnFile(other, n)
  {
    var i :| 0 <= i <= |t| - |other| && OccursAt(other, t, i) && !WordAt(t, i - 1) && !WordAt(t, i + |other|);
    OccurrenceBeforeClosing(p, last, other, i);
    KeptOccurrence(p, last, y, other, i);
  }

  /** A token without a brace that occurs in a text ending in the closing line lies before it. */
  lemma OccurrenceBeforeClosing(p: string, last: string, other: string, i: int)
    requires IsClosing(last) && IsToken(other) && '}' !in other
    requires OccursAt(other, p + last, i)
    ensures i + |other| <= |p|
  {
    var t := p + last;
    forall j | i <= j < i + |other| ensures t[j] != '}' && !IsSpace(t[j]) {
      assert t[j] == t[i..i + |other|][j - i] == other[j - i];
    }
    assert t[|p|] == '}';
    if last == "}\n" {
      assert t[|p| + 1] == '\n';
    }
  }

  /**
   * An occurrence lying wholly in the kept text `p` stays delimited when what
   * follows `p` is replaced by text that starts with a non-word character.
   */
  lemma KeptOccurrence(p: string, x: string, y: string, other: string, i: int)
    requires OccursAt(other, p + x, i) && i + |other| <= |p|
    requires !WordAt(p + x, i - 1) && !WordAt(p + x, i + |other|)
    requires y != [] && !IsWordChar(y[0])
    ensures OnFile(other, p + y)
  {
    var t, n := p + x, p + y;
    assert n[i..i + |other|] == p[i..i + |other|] == t[i..i + |other|];
    if i > 0 { assert n[i - 1] == p[i - 1] == t[i - 1]; }
    if i + |other| < |p| { assert n[i + |other|] == p[i + |other|] == t[i + |other|]; }
    if i + |other| == |p| { assert n[i + |other|] == y[0]; }
    assert OccursAt(other, n, i);
  }

  /**
   * For an address that starts and ends with a word character, which every
   * IPv4 address does, the test as written and the intended test agree.
   */
  lemma AsWrittenAgreesOnWordEnds(ip: string, text: string)
    requires ip != [] && IsWordChar(ip[0]) && IsWordChar(ip[|ip| - 1])
    ensures OnFileAsWritten(ip, text) <==> OnFile(ip, text)
  {
    if OnFileAsWritten(ip, text) {
      var i :| 0 <= i <= |text| - |ip| && OccursAt(ip, text, i) && BoundaryAt(text, i) && BoundaryAt(text, i + |ip|);
      EndsOfOccurrence(ip, text, i);
      assert OccursAt(ip, text, i) && !WordAt(text, i - 1) && !WordAt(text, i + |ip|);
    }
    if OnFile(ip, text) {
      var i :| 0 <= i <= |text| - |ip| && OccursAt(ip, text, i) && !WordAt(text, i - 1) && !WordAt(text, i + |ip|);
      EndsOfOccurrence(ip, text, i);
      assert OccursAt(ip, text, i) && BoundaryAt(text, i) && BoundaryAt(text, i + |ip|);
    }
  }

  /**
   * As written, `block_ip` is still an idempotent add for an address that
   * starts and ends with a word character, such as every IPv4 address: a
   * later call writes nothing and requests no reload.
   */
  lemma BlockStepAsWrittenIdempotent(present: bool, lines: seq<string>, ip: string, epoch: int, later: int)
    requires ip != [] && IsWordChar(ip[0]) && IsWordChar(ip[|ip| - 1])
    requires BlockStepAsWritten(present, lines, ip, epoch).Some?
    ensures BlockStepAsWritten(present, BlockStepAsWritten(present, lines, ip, epoch).value, ip, later) == None
  {
    AsWrittenAgreesOnWordEnds(ip, Concat(lines));
    assert BlockStepAsWritten(present, lines, ip, epoch) == BlockStep(present, lines, ip, epoch);
    BlockStepIdempotent(present, lines, ip, epoch, later);
    AsWrittenAgreesOnWordEnds(ip, Concat(Blocked(lines, ip, epoch)));
  }

  lemma EndsOfOccurrence(ip: string, text: string, i: int)
    requires ip != [] && OccursAt(ip, text, i)
    ensures text[i] == ip[0] && text[i + |ip| - 1] == ip[|ip| - 1]
  {
    assert text[i] == text[i..i + |ip|][0];
    assert text[i + |ip| - 1] == text[i..i + |ip|][|ip| - 1];
  }

  /** The entry line written for `::1` at time 0, followed by the closing brace. */
  const ColonEntryText: string := "    ::1 1; #0\n}"

  /** The test as written does not find `::1` in its own entry. */
  lemma ColonIpMissedAsWritten()
    ensures !OnFileAsWritten("::1", ColonEntryText)
  {
    var text := ColonEntryText;
    forall i | 0 <= i <= |text| - 3 && OccursAt("::1", text, i) ensures !BoundaryAt(text, i) {
      EndsOfOccurrence("::1", text, i);
      assert text[i + 1] == text[i..i + 3][1] == ':';
      assert i == 4;
    }
  }

  /**
   * The IPv6 loopback address `::1` begins with a non-word character, so in
   * its own entry line `    ::1 1; #...` the leading `\b` cannot match:
   * as written, every ban of `::1` appends another entry, while the intended
   * test writes nothing the second time.
   */
  lemma ColonIpBannedTwice()
    ensures BlockStepAsWritten(true, ["}"], "::1", 0) == Some(["    ::1 1; #0\n", "}"])
    ensures BlockStepAsWritten(true, ["    ::1 1; #0\n", "}"], "::1", 1)
         == Some(["    ::1 1; #0\n", "    ::1 1; #1\n", "}"])
    ensures BlockStep(true, ["    ::1 1; #0\n", "}"], "::1", 1) == None
  {
    assert Concat(["}"]) == "}";
    assert Blocked(["}"], "::1", 0) == [EntryLine("::1", 0), "}"];
    assert Concat(["    ::1 1; #0\n", "}"]) == ColonEntryText by {
      ConcatAppend(["    ::1 1; #0\n"], "}");
      assert ["    ::1 1; #0\n", "}"] == ["    ::1 1; #0\n"] + ["}"];
    }
    ColonIpMissedAsWritten();
    assert Blocked(["    ::1 1; #0\n", "}"], "::1", 1) == ["    ::1 1; #0\n", EntryLine("::1", 1), "}"];
    assert EntryLine("::1", 0) == "    ::1 1; #0\n";
    assert EntryLine("::1", 1) == "    ::1 1; #1\n";
    BlockedListsIp(["}"], "::1", 0);
  }

  /** The deny-list file as the sidecar sees it, with the number of reloads it has requested. */
  class BannedConf {
    /** Whether `open(BANNED_CONF_FILE)` succeeds. */
    var present: bool
    /** The file's lines, as `readlines` returns them. */
    var lines: seq<string>
    /** How many times `reload_nginx` has been called. */
    var reloads: nat

    constructor (present: bool, lines: seq<string>)
      ensures this.present == present && this.lines == lines && reloads == 0
    {
      this.present := present;
      this.lines := lines;
      reloads := 0;
    }

    /** `is_ip_on_file(ip)`: false when the file cannot be opened. */
    function IsIpOnFile(ip: string): bool
      reads this
    {
      present && OnFile(ip, Concat(lines))
    }

    /**
     * `block_ip(ip)` at time `epoch`: writes the new entry and requests a
     * reload, unless the address is listed, the file cannot be opened, or
     * the file is empty (`pop()` raises and the handler swallows it).
     */
    method BlockIp(ip: string, epoch: int) returns (written: bool)
      modifies this
      ensures present == old(present)
      ensures written == BlockStep(old(present), old(lines), ip, epoch).Some?
      ensures lines == BlockStep(old(present), old(lines), ip, epoch).GetOr(old(lines))
      ensures reloads == old(reloads) + (if written then 1 else 0)
    {
      written := false;
      if !IsIpOnFile(ip) && present && lines != [] {
        var content := lines;
        content := content[..|content| - 1];
        content := content + [EntryLine(ip, epoch)];
        content := content + ["}"];
        lines := content;
        reloads := reloads + 1;
        written := true;
      }
    }
  }
}
