/**
 * Day-one device qualification (day1/devnet_day1.py).
 *
 * Each device gets a Result: created with fixed defaults by the CDP check and then filled in
 * by the software and NTP checks.  A check ends as soon as it reports failed, passed or
 * raises, so the updates after that point are not made.  What the device and the parser
 * answer (a parse that raised, a ping reply, whether configure and `wr` raised) is given to
 * each check as an input.
 */
module Qualification {
  import opened Wrappers
  import opened Text

  // ---------------------------------------------------------------------------------------------
  // The per-device record

  datatype CdpStatus = CdpOff | CdpOn
  datatype ImageClass = PE | NPE
  datatype ClockState = Unsync | Sync

  function CdpText(c: CdpStatus): string {
    match c
    case CdpOff => "OFF"
    case CdpOn => "ON"
  }

  function ImageText(c: ImageClass): string {
    match c
    case PE => "PE"
    case NPE => "NPE"
  }

  function ClockText(c: ClockState): string {
    match c
    case Unsync => "unsync"
    case Sync => "sync"
  }

  /** `Result`: `hw` and `sw` exist only once the software check has set them. */
  class DeviceResult {
    const name: string
    var hw: Option<string>
    var sw: Option<string>
    var isCdp: CdpStatus
    var nbrs: nat
    var clockState: ClockState
    var isNpe: ImageClass

    constructor (name: string)
      ensures this.name == name
      ensures hw == None && sw == None
      ensures isCdp == CdpOff && nbrs == 0 && clockState == Unsync && isNpe == PE
    {
      this.name := name;
      hw, sw := None, None;
      isCdp, nbrs := CdpOff, 0;
      clockState := Unsync;
      isNpe := PE;
    }

    /** The fields the summary line starts with: "<name>; <hw>; <sw>; <PE|NPE>; CDP is ". */
    function Head(): string
      reads this
      requires hw.Some? && sw.Some?
    {
      name + "; " + hw.value + "; " + sw.value + "; " + ImageText(isNpe) + "; CDP is "
    }

    /**
     * `Result.__str__`:
     * "<name>; <hw>; <sw>; <PE|NPE>; CDP is <ON|OFF>, <n> peers; Clock is <state>".
     * Without `hw` and `sw` the source raises AttributeError, hence the precondition.
     */
    function Summary(): (line: string)
      reads this
      requires hw.Some? && sw.Some?
      ensures Head() <= line
      ensures EndsWith(line, "Clock is " + ClockText(clockState))
    {
      var head := Head() + CdpText(isCdp) + ", " + NatToString(nbrs) + " peers; ";
      EndsWithAppended(head, "Clock is " + ClockText(clockState));
      head + ("Clock is " + ClockText(clockState))
    }
  }

  /** The summary line tells a synchronised clock apart, although "unsync" ends in "sync". */
  lemma SummaryShowsSync(r: DeviceResult)
    requires r.hw.Some? && r.sw.Some?
    ensures EndsWith(r.Summary(), "Clock is sync") <==> r.clockState == Sync
  {
    var line := r.Summary();
    var tail := "Clock is " + ClockText(r.clockState);
    if r.clockState == Unsync {
      assert line[|line| - 13..] == line[|line| - 15..][2..];
      assert tail[2] == 'o';
    }
  }

  /**
   * The CDP part of the summary line: "ON, " exactly when CDP is on, and the digits that
   * follow "<ON|OFF>, " are `str(nbrs)` (which `DecimalRoundTrip` reads back as the count).
   */
  lemma SummaryShowsCdp(r: DeviceResult)
    requires r.hw.Some? && r.sw.Some?
    ensures var line := r.Summary();
            var n := NatToString(r.nbrs);
            var digits := |r.Head()| + |CdpText(r.isCdp)| + 2;
            && OccursAt(line, CdpText(r.isCdp) + ", " + n + " peers; ", |r.Head()|)
            && (OccursAt(line, "ON, ", |r.Head()|) <==> r.isCdp == CdpOn)
            && line[digits..digits + |n|] == n
  {
    var line := r.Summary();
    var head, word, n := r.Head(), CdpText(r.isCdp), NatToString(r.nbrs);
    var clock := "Clock is " + ClockText(r.clockState);
    var piece := word + ", " + n + " peers; ";
    assert line == head + word + ", " + n + " peers; " + clock;
    CdpPiece(head, word, n, clock);
    assert OccursAt(line, "ON, ", |head|) <==> r.isCdp == CdpOn by {
      SliceOfOccurrence(line, piece, |head|, 0, 4);
      CdpWord(r.isCdp, piece);
    }
  }

  /** With the prefix, the CDP piece and the clock suffix, the length pins the summary line down completely. */
  lemma SummaryLength(r: DeviceResult)
    requires r.hw.Some? && r.sw.Some?
    ensures |r.Summary()| == |r.Head()| + |CdpText(r.isCdp)| + 2 + |NatToString(r.nbrs)| + 8 + 9 + |ClockText(r.clockState)|
  {
  }

  /** Where the "<word>, <n> peers; " piece of a line sits, and where its digits are. */
  lemma CdpPiece(head: string, word: string, n: string, clock: string)
    ensures var line := head + word + ", " + n + " peers; " + clock;
            && OccursAt(line, word + ", " + n + " peers; ", |head|)
            && |line| == |head| + |word| + 2 + |n| + 8 + |clock|
            && line[|head| + |word| + 2..|head| + |word| + 2 + |n|] == n
  {
    var piece := word + ", " + n + " peers; ";
    var line := head + word + ", " + n + " peers; " + clock;
    var k := |word| + 2;
    assert OccursAt(line, piece, |head|) by {
      Regroup(head, word, ", ", n, " peers; ", clock);
      ContainsPiece(head, piece, clock);
    }
    assert line[|head| + k..|head| + k + |n|] == n by {
      SliceOfOccurrence(line, piece, |head|, k, k + |n|);
      assert piece == (word + ", ") + n + " peers; ";
    }
  }

  /** A text that starts with "ON, " or "OFF, " starts with "ON, " exactly when CDP is on. */
  lemma CdpWord(c: CdpStatus, p: string)
    requires CdpText(c) + ", " <= p
    ensures |p| >= 4 && (p[..4] == "ON, " <==> c == CdpOn)
  {
    if c == CdpOff {
      assert p[1] == 'F';
    } else {
      assert p[..4] == "ON, ";
    }
  }

  // ---------------------------------------------------------------------------------------------
  // ping_percent and is_alive

  const PercentWord := " percent"

  /**
   * `s[i..j]` is where a search for `(\d+) percent` can match: a run of ASCII digits that no
   * digit precedes, followed by " percent".
   */
  predicate PercentToken(s: string, i: int, j: int) {
    && 0 <= i < j <= |s|
    && (i == 0 || !IsDigit(s[i - 1]))
    && (forall k | i <= k < j :: IsDigit(s[k]))
    && OccursAt(s, PercentWord, j)
  }

  /** The end of the run of digits that starts at `i`. */
  function RunEnd(s: string, i: int): (j: int)
    requires 0 <= i <= |s|
    ensures i <= j <= |s| && (forall k | i <= k < j :: IsDigit(s[k])) && (j == |s| || !IsDigit(s[j]))
    decreases |s| - i
  {
    if i < |s| && IsDigit(s[i]) then RunEnd(s, i + 1) else i
  }

  /** A token that starts at `i` ends where the digit run from `i` ends. */
  lemma TokenEndsAtRunEnd(s: string, i: int, j: int)
    requires PercentToken(s, i, j)
    ensures j == RunEnd(s, i)
  {
    var e := RunEnd(s, i);
    assert OccursAt(s, PercentWord, j);
    assert s[j] == PercentWord[0];
  }

  /** The leftmost token at or after `i`, where `i` is not inside a run of digits. */
  function FindToken(s: string, i: int): (r: Option<(int, int)>)
    requires 0 <= i <= |s| && (i == 0 || !IsDigit(s[i - 1]))
    ensures r.Some? ==> i <= r.value.0 && PercentToken(s, r.value.0, r.value.1)
    ensures r.Some? ==> forall a, b | i <= a < r.value.0 :: !PercentToken(s, a, b)
    ensures r.None? ==> forall a, b | i <= a :: !PercentToken(s, a, b)
    decreases |s| - i
  {
    if i == |s| then None
    else if !IsDigit(s[i]) then FindToken(s, i + 1)
    else
      var j := RunEnd(s, i);
      NoTokenInsideRun(s, i, j);
      if OccursAt(s, PercentWord, j) then Some((i, j))
      else if j == |s| then None
      else FindToken(s, j + 1)
  }

  /** No token starts strictly inside a digit run, nor right after it; one at its start ends with it. */
  lemma NoTokenInsideRun(s: string, i: int, j: int)
    requires 0 <= i < |s| && IsDigit(s[i]) && j == RunEnd(s, i)
    ensures forall a, b | i < a <= j :: !PercentToken(s, a, b)
    ensures forall b :: PercentToken(s, i, b) ==> b == j
    ensures !OccursAt(s, PercentWord, j) ==> forall a, b | i <= a <= j :: !PercentToken(s, a, b)
  {
    forall b | PercentToken(s, i, b) ensures b == j {
      TokenEndsAtRunEnd(s, i, b);
    }
  }

  /**
   * `ping_percent`: the value of the leftmost match of `(\d+) percent`.  None stands for the
   * source's failure when there is no match (`re.search` gives None and `None[1]` raises).
   */
  function PingPercent(reply: string): (r: Option<nat>)
    ensures r.None? <==> forall a, b :: !PercentToken(reply, a, b)
    ensures r.Some? ==>
              exists a, b :: && PercentToken(reply, a, b)
                             && (forall a', b' | a' < a :: !PercentToken(reply, a', b'))
                             && r.value == DecimalValue(reply[a..b])
  {
    match FindToken(reply, 0)
    case None => None
    case Some((a, b)) => Some(DecimalValue(reply[a..b]))
  }

  /** The value of the leftmost token is what `ping_percent` returns. */
  lemma LeftmostTokenValue(s: string, a: int, b: int)
    requires PercentToken(s, a, b)
    requires forall a', b' | a' < a :: !PercentToken(s, a', b')
    ensures PingPercent(s) == Some(DecimalValue(s[a..b]))
  {
    var r := PingPercent(s);
    var a1, b1 :| && PercentToken(s, a1, b1)
                 && (forall a', b' | a' < a1 :: !PercentToken(s, a', b'))
                 && r.value == DecimalValue(s[a1..b1]);
    assert a1 == a;
    TokenEndsAtRunEnd(s, a, b);
    TokenEndsAtRunEnd(s, a, b1);
  }

  /**
   * Where the regular expression `(\d+) percent` itself matches: digits `s[a..b]` followed by
   * " percent", with no condition on what precedes `a`.
   */
  predicate RegexMatch(s: string, a: int, b: int) {
    && 0 <= a < b <= |s|
    && (forall k | a <= k < b :: IsDigit(s[k]))
    && OccursAt(s, PercentWord, b)
  }

  /** Stepping back to the start of its digit run turns a regex match into a token with the same end. */
  lemma {:induction false} MatchRunStart(s: string, a: int, b: int)
    requires RegexMatch(s, a, b)
    ensures exists a' | 0 <= a' <= a :: PercentToken(s, a', b)
    decreases a
  {
    if a == 0 || !IsDigit(s[a - 1]) {
      assert PercentToken(s, a, b);
    } else {
      assert RegexMatch(s, a - 1, b);
      MatchRunStart(s, a - 1, b);
    }
  }

  /** `ping_percent` fails exactly when the regular expression has no match in the reply. */
  lemma PingPercentNoneIff(s: string)
    ensures PingPercent(s).None? <==> forall a, b :: !RegexMatch(s, a, b)
  {
    if a, b :| RegexMatch(s, a, b) {
      MatchRunStart(s, a, b);
      var a' :| 0 <= a' <= a && PercentToken(s, a', b);
      assert PingPercent(s).Some?;
    }
    if PingPercent(s).Some? {
      var a, b :| PercentToken(s, a, b);
      assert RegexMatch(s, a, b);
    }
  }

  /** The leftmost regex match, which is what `re.search` returns, gives the percentage. */
  lemma LeftmostMatchValue(s: string, a: int, b: int)
    requires RegexMatch(s, a, b)
    requires forall a', b' | a' < a :: !RegexMatch(s, a', b')
    ensures PingPercent(s) == Some(DecimalValue(s[a..b]))
  {
    if a > 0 && IsDigit(s[a - 1]) {
      assert RegexMatch(s, a - 1, b);
    }
    assert PercentToken(s, a, b);
    forall a', b' | a' < a ensures !PercentToken(s, a', b') {
      if PercentToken(s, a', b') {
        assert RegexMatch(s, a', b');
      }
    }
    LeftmostTokenValue(s, a, b);
  }

  /** No token starts inside a prefix that has no digits. */
  lemma NoTokenInDigitFreeHead(head: string, rest: string)
    requires forall k | 0 <= k < |head| :: !IsDigit(head[k])
    ensures forall a, b | a < |head| :: !PercentToken(head + rest, a, b)
  {
    forall a, b | a < |head| ensures !PercentToken(head + rest, a, b) {
      if 0 <= a < b {
        assert (head + rest)[a] == head[a];
      }
    }
  }

  /** Without the word " percent" in the reply, `ping_percent` fails. */
  lemma NoPercentWordFails(reply: string)
    requires !Contains(reply, PercentWord)
    ensures PingPercent(reply) == None
  {
  }

  lemma HundredPercent()
    ensures PingPercent("100 percent") == Some(100)
  {
    var s := "100 percent";
    assert PercentToken(s, 0, 3) && s[0..3] == "100";
    assert DecimalValue("100") == 100 by {
      assert "100"[..2] == "10" && "10"[..1] == "1" && "1"[..0] == "";
    }
    LeftmostTokenValue(s, 0, 3);
  }

  lemma ZeroPercent()
    ensures PingPercent("0 percent") == Some(0)
  {
    var s := "0 percent";
    assert PercentToken(s, 0, 1);
    LeftmostTokenValue(s, 0, 1);
    assert s[0..1] == "0";
  }

  /** The leftmost run wins: "10 percent" contains "0 percent" and still reads as 10. */
  lemma TenPercent()
    ensures PingPercent("10 percent") == Some(10)
  {
    var s := "10 percent";
    assert PercentToken(s, 0, 2);
    LeftmostTokenValue(s, 0, 2);
    assert s[0..2] == "10";
    assert "10"[..1] == "1" && "1"[..0] == "";
  }

  /** The summary line of an IOS ping: the first number followed by " percent" is the success rate. */
  lemma IosPingReply()
    ensures PingPercent("Success rate is " + "80 percent (4/5)") == Some(80)
  {
    var head, rest := "Success rate is ", "80 percent (4/5)";
    var s := head + rest;
    assert PercentToken(s, 16, 18) && s[16..18] == "80" by {
      assert s[16..26] == "80 percent";
      assert s[16..18] == s[16..26][..2];
    }
    assert forall a, b | a < 16 :: !PercentToken(s, a, b) by {
      assert forall k | 0 <= k < |head| :: !IsDigit(head[k]);
      NoTokenInDigitFreeHead(head, rest);
    }
    assert DecimalValue("80") == 80 by {
      assert "80"[..1] == "8" && "8"[..0] == "";
    }
    LeftmostTokenValue(s, 16, 18);
  }

  /** The reply of a device ping: the call raised, or the reply text. */
  datatype PingOutcome = PingRaised | PingReply(text: string)

  /**
   * `is_alive`: false when the ping raises, false for 0 percent, true otherwise.  None is the
   * exception `ping_percent` raises on a reply without a percentage; `is_alive` lets it through.
   */
  function IsAlive(ping: PingOutcome): (r: Option<bool>)
    ensures ping.PingRaised? ==> r == Some(false)
    ensures ping.PingReply? ==> (r.None? <==> PingPercent(ping.text).None?)
    ensures ping.PingReply? && r.Some? ==> (r.value <==> PingPercent(ping.text).value != 0)
  {
    match ping
    case PingRaised => Some(false)
    case PingReply(text) =>
      match PingPercent(text)
      case None => None
      case Some(percent) => Some(percent != 0)
  }

  lemma AliveExamples()
    ensures IsAlive(PingReply("100 percent")) == Some(true)
    ensures IsAlive(PingReply("0 percent")) == Some(false)
    ensures IsAlive(PingRaised) == Some(false)
  {
    HundredPercent();
    ZeroPercent();
  }

  // ---------------------------------------------------------------------------------------------
  // The checks

  /** How an aetest section ended: `self.passed`, `self.failed`, or an exception it did not catch. */
  datatype StepOutcome = Passed(message: string) | Failed(message: string) | Errored(reason: string)

  /** The answer of `parse('show cdp neighbors')`: `cdp.index`. */
  datatype CdpNeighbor = CdpNeighbor(deviceId: string, localInterface: string, portId: string)
  datatype CdpTable = CdpTable(index: map<int, CdpNeighbor>)

  /** The answer of `parse('show version')`: `version.platform`, `version.image_id`, `version.version`. */
  datatype VersionInfo = VersionInfo(platform: string, imageId: string, version: string)

  /** The answer of `parse('show ntp status')`: `clock_state.system_status.status`, each level possibly absent. */
  datatype SystemStatus = SystemStatus(status: string)
  datatype NtpClock = NtpClock(systemStatus: Option<SystemStatus>)
  datatype NtpStatus = NtpStatus(clockState: Option<NtpClock>)

  /** The image class `test_software` records: NPE when "NPE" occurs in the image name, else what was there. */
  function ImageClassOf(imageId: string, prior: ImageClass): (c: ImageClass)
    ensures c == NPE <==> Contains(imageId, "NPE") || prior == NPE
    ensures !Contains(imageId, "NPE") ==> c == prior
  {
    if Contains(imageId, "NPE") then NPE else prior
  }

  /** The configuration block `test_ntp` pushes. */
  function NtpConfig(server: string): (block: string)
    ensures "ntp server " + server + "\n" <= block
    ensures EndsWith(block, "clock timezone GMT 0 0")
    ensures |block| == |server| + 34
  {
    EndsWithAppended("ntp server " + server + "\n", "clock timezone GMT 0 0");
    "ntp server " + server + "\n" + "clock timezone GMT 0 0"
  }

  /** The server address can be read back from the pushed block, so two servers never share one. */
  lemma NtpConfigServer(server: string)
    ensures NtpConfig(server)[11..11 + |server|] == server
    ensures forall other: string :: NtpConfig(other) == NtpConfig(server) ==> other == server
  {
    forall other: string | NtpConfig(other) == NtpConfig(server) ensures other == server {
      assert |other| == |server|;
      assert other == NtpConfig(other)[11..11 + |other|];
    }
  }

  /**
   * What `test_ntp` concludes before it records anything: the outcome of its first failing
   * step, or Passed when the clock is to be marked synchronised.
   */
  function NtpVerdict(ping: PingOutcome, configured: bool, parsed: Option<NtpStatus>): (r: StepOutcome)
    ensures r.Errored? <==> IsAlive(ping).None?
    ensures IsAlive(ping) == Some(false) ==> r == Failed("NTP-server unreacheable")
    ensures IsAlive(ping) == Some(true) && !configured ==> r == Failed("something goes wrong when try to set NTP-server")
    ensures IsAlive(ping) == Some(true) && configured && ReportedStatus(parsed).None? ==> r == Failed("")
    ensures r.Passed? ==> r == Passed("")
  {
    match IsAlive(ping)
    case None => Errored("TypeError: no percentage in the ping reply")
    case Some(alive) =>
      if !alive then Failed("NTP-server unreacheable")
      else if !configured then Failed("something goes wrong when try to set NTP-server")
      else match parsed
        case None => Failed("")
        case Some(ntp) =>
          match ntp.clockState
          case None => Failed("")
          case Some(clock) =>
            match clock.systemStatus
            case None => Failed("")
            case Some(st) =>
              if st.status != "synchronized" then Failed("ntp status=" + st.status) else Passed("")
  }

  /** The NTP status the device reports, when the whole structure is present. */
  function ReportedStatus(parsed: Option<NtpStatus>): Option<string>
  {
    if parsed.Some? && parsed.value.clockState.Some? && parsed.value.clockState.value.systemStatus.Some?
    then Some(parsed.value.clockState.value.systemStatus.value.status)
    else None
  }

  /**
   * The clock is to be marked synchronised iff the server answered a ping with a non-zero
   * percentage, configuration and `wr` did not raise, and the device reports "synchronized".
   */
  lemma NtpPassesIff(ping: PingOutcome, configured: bool, parsed: Option<NtpStatus>)
    ensures NtpVerdict(ping, configured, parsed).Passed? <==>
            && ping.PingReply?
            && PingPercent(ping.text).Some? && PingPercent(ping.text).value != 0
            && configured
            && ReportedStatus(parsed) == Some("synchronized")
  {
  }

  /** A reported status other than "synchronized" fails the check and names the status. */
  lemma OtherStatusFails(ping: PingOutcome, parsed: Option<NtpStatus>, status: string)
    requires IsAlive(ping) == Some(true)
    requires ReportedStatus(parsed) == Some(status) && status != "synchronized"
    ensures NtpVerdict(ping, true, parsed) == Failed("ntp status=" + status)
  {
  }

  /** `make_backup`'s artifact path for a device, given the `%d%m%Y_%H%M` time stamp. */
  function BackupPath(name: string, stamp: string): (path: string)
    ensures "./backup/" + name + "_" <= path
    ensures EndsWith(path, "_" + stamp + ".txt")
    ensures |path| == |name| + |stamp| + 14
  {
    "./backup/" + name + "_" + stamp + ".txt"
  }

  /** Stamps of one fixed width keep the artifacts of different devices and times apart. */
  lemma BackupPathInjective(n1: string, s1: string, n2: string, s2: string)
    requires |s1| == |s2|
    requires BackupPath(n1, s1) == BackupPath(n2, s2)
    ensures n1 == n2 && s1 == s2
  {
    var p := BackupPath(n1, s1);
    assert |n1| == |n2|;
    assert n1 == p[9..9 + |n1|];
    assert n2 == p[9..9 + |n2|];
    assert s1 == p[10 + |n1|..10 + |n1| + |s1|];
    assert s2 == BackupPath(n2, s2)[10 + |n2|..10 + |n2| + |s2|];
  }

  /** `RESULTS`: one Result per device name. */
  class ResultTable {
    var results: map<string, DeviceResult>

    ghost predicate Valid()
      reads this
    {
      forall k | k in results :: results[k].name == k
    }

    constructor ()
      ensures Valid() && results == map[]
    {
      results := map[];
    }

    /**
     * `test_cdp`: a fresh default Result for the device first; on a successful parse CDP is
     * ON with the number of neighbours, otherwise the section fails and the defaults stay.
     */
    method TestCdp(name: string, cdp: Option<CdpTable>) returns (outcome: StepOutcome)
      requires Valid()
      modifies this
      ensures Valid()
      ensures results.Keys == old(results).Keys + {name}
      ensures forall k | k in old(results) && k != name :: results[k] == old(results)[k]
      ensures fresh(results[name])
      ensures var r := results[name];
              && r.hw == None && r.sw == None && r.isNpe == PE && r.clockState == Unsync
              && match cdp
                 case None =>
                   r.isCdp == CdpOff && r.nbrs == 0 && outcome == Failed("CDP not enabled")
                 case Some(table) =>
                   && r.isCdp == CdpOn && r.nbrs == |table.index|
                   && outcome == Passed("CDP is ON, nbrs=" + NatToString(|table.index|))
    {
      var r := new DeviceResult(name);
      results := results[name := r];
      if cdp.None? {
        outcome := Failed("CDP not enabled");
        return;
      }
      var count := |cdp.value.index|;
      results[name].isCdp := CdpOn;
      results[name].nbrs := count;
      outcome := Passed("CDP is ON, nbrs=" + NatToString(count));
    }

    /**
     * `test_software`: records platform and image, and NPE when the image name contains "NPE".
     * A parse that raises, or a device without a Result, ends the section with nothing recorded.
     */
    method TestSoftware(name: string, soft: Option<VersionInfo>) returns (outcome: StepOutcome)
      requires Valid()
      modifies results.Values
      ensures Valid()
      ensures results == old(results)
      ensures forall k | k in results && k != name :: unchanged(results[k])
      ensures soft.None? ==> outcome.Errored? && forall k | k in results :: unchanged(results[k])
      ensures soft.Some? && name !in results ==> outcome.Errored?
      ensures soft.Some? && name in results ==>
                var r := results[name];
                var v := soft.value;
                && r.hw == Some(v.platform) && r.sw == Some(v.imageId)
                && r.isNpe == ImageClassOf(v.imageId, old(r.isNpe))
                && r.isCdp == old(r.isCdp) && r.nbrs == old(r.nbrs) && r.clockState == old(r.clockState)
                && outcome == Passed(v.version + " image=" + v.imageId + (if Contains(v.imageId, "NPE") then " with NPE" else " PE"))
    {
      if soft.None? {
        outcome := Errored("show version could not be parsed");
        return;
      }
      var v := soft.value;
      if name !in results {
        outcome := Errored("KeyError: " + name);
        return;
      }
      results[name].hw := Some(v.platform);
      results[name].sw := Some(v.imageId);
      if Contains(v.imageId, "NPE") {
        results[name].isNpe := NPE;
        outcome := Passed(v.version + " image=" + v.imageId + " with NPE");
        return;
      }
      outcome := Passed(v.version + " image=" + v.imageId + " PE");
    }

    /**
     * `test_ntp`: ping the server, push and save the configuration, read the NTP status; the
     * clock is marked synchronised only after all of them succeeded.  `accepts` says whether
     * `configure` and `wr` of a block succeed on the device.
     */
    method TestNtp(name: string, server: string, ping: PingOutcome, accepts: string -> bool, parsed: Option<NtpStatus>)
      returns (outcome: StepOutcome)
      requires Valid()
      modifies results.Values
      ensures Valid()
      ensures results == old(results)
      ensures forall k | k in results && k != name :: unchanged(results[k])
      ensures !NtpVerdict(ping, accepts(NtpConfig(server)), parsed).Passed? ==>
                outcome == NtpVerdict(ping, accepts(NtpConfig(server)), parsed) && forall k | k in results :: unchanged(results[k])
      ensures NtpVerdict(ping, accepts(NtpConfig(server)), parsed).Passed? && name !in results ==> outcome.Errored?
      ensures NtpVerdict(ping, accepts(NtpConfig(server)), parsed).Passed? && name in results ==>
                var r := results[name];
                && outcome == Passed("") && r.clockState == Sync
                && r.hw == old(r.hw) && r.sw == old(r.sw) && r.isNpe == old(r.isNpe)
                && r.isCdp == old(r.isCdp) && r.nbrs == old(r.nbrs)
    {
      var alive := IsAlive(ping);
      if alive.None? {
        outcome := Errored("TypeError: no percentage in the ping reply");
        return;
      }
      if !alive.value {
        outcome := Failed("NTP-server unreacheable");
        return;
      }
      var configured := accepts(NtpConfig(server));
      if !configured {
        outcome := Failed("something goes wrong when try to set NTP-server");
        return;
      }
      if parsed.None? {
        outcome := Failed("");
        return;
      }
      var ntp := parsed.value;
      if ntp.clockState.None? || ntp.clockState.value.systemStatus.None? {
        outcome := Failed("");
        return;
      }
      var status := ntp.clockState.value.systemStatus.value;
      if status.status != "synchronized" {
        outcome := Failed("ntp status=" + status.status);
        return;
      }
      if name !in results {
        outcome := Errored("KeyError: " + name);
        return;
      }
      results[name].clockState := Sync;
      outcome := Passed("");
    }
  }
}
