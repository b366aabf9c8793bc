# Network inventory and device qualification: a Dafny model

This project models two small network-automation scripts.

- **Endpoint correlation** (`day2/day2.py`). The script collects three command outputs from
  every switch: `show interfaces`, `show interfaces switchport` and `show mac address-table`.
  From them it builds a registry of layer-3 endpoints keyed by MAC address.
  - Pass 1: every interface that is up/up and of hardware type `EtherSVI` is an endpoint on
    port "SVI".
  - Pass 2: for every switch, the script builds the tuple of access ports. These are the
    interfaces whose mode is not "down" and whose admin mode is "static access".
  - Pass 3: every non-STATIC MAC-table row whose destination port is an access port of its
    switch is an endpoint.
  - A later add for the same MAC replaces the earlier one and keeps its place in the
    registry's insertion order. `get` answers with the endpoint, or with the text
    "<mac> doesn't exist on LAN".
- **Device qualification** (`day1/devnet_day1.py`). Every device gets a per-device result
  record.
  - `test_cdp` resets that record and counts CDP neighbours.
  - `test_software` records platform and image, and whether the image name contains "NPE".
  - `test_ntp` does three things in order: it pings the NTP server, where `is_alive` reads
    the first "<digits> percent" of the reply; it pushes and saves the NTP configuration; it
    checks that the clock reports "synchronized". Only then is the clock marked "sync".
  - A section ends as passed, failed or errored, each with its message.

The three files are:

- `endpoints.dfy` (module `Endpoints`) contains:
  - the endpoint registry as a class `Registry` whose methods update `entries` and `order`;
  - the pure store operations `Insert`/`InsertAll`, which specify those methods;
  - the three passes and the whole build `Correlate`.
- `qualification.dfy` (module `Qualification`) contains:
  - the per-device record `DeviceResult`, the table `ResultTable`, and the three test sections
    as methods of that table;
  - `ping_percent`, `is_alive` and the NTP verdict as functions.
- `text.dfy` (module `Text`) and `wrappers.dfy` (module `Wrappers`) hold string helpers and
  `Option`:
  - decimal rendering and parsing;
  - substring and suffix predicates.

A device call is an input to the model:

- a parse that may raise is an `Option` of a typed record;
- a ping is a `PingOutcome`;
- a configuration push is a predicate saying whether pushing a given block and saving it succeeds.

Behaviour of the code worth knowing, which the model follows:

- A non-STATIC MAC-table row on a switch that has no switchport output raises `KeyError` in pass 3. This
  aborts the whole build, and the adds made before it are kept (`MissingSwitch`,
  `MacJoinKeyError`). It is not skipped.
- `ping_percent` takes the first maximal digit run followed by " percent". A reply saying
  "10 percent" therefore reads as 10 (`TenPercent`), even though it contains "0 percent".
- A reply with no such run raises `TypeError` inside `is_alive`. This errors the NTP section
  instead of failing it (`IsAlive` returns `None`, `TestNtp` gives `Errored`).
- A missing NTP status, or a missing clock state, fails the section with an empty message.
- `print_all` prints each endpoint and returns nothing. The model returns the printed lines.

## Model

| member | source | states |
|---|---|---|
| Endpoints.Render | day2/day2.py:21-22 | the line starts with "mac on switch.port" and ends with " vlan-" followed by the VLAN, with no other characters (its length is the four fields plus 11) |
| Endpoints.Lookup | day2/day2.py:28-30 | the MAC is found exactly when it is a key, and then the answer is its endpoint; otherwise the answer is "<mac> doesn't exist on LAN" |
| Endpoints.Insert | day2/day2.py:24-26 | after an add, the MAC maps to the new endpoint and every other MAC is unchanged; a new MAC is appended to the insertion order and a known one keeps its place; a well-formed store stays well-formed |
| Endpoints.InsertAllWellFormed | day2/day2.py:24-26 | any sequence of adds to a well-formed store keeps the order duplicate-free and equal to the key set |
| Endpoints.InsertAllGrows | day2/day2.py:24-26 | a sequence of adds never removes a MAC: the old order is a prefix of the new and the old keys stay keys |
| Endpoints.InsertAllLookup | day2/day2.py:24-26 | after a sequence of adds, a MAC maps to the last endpoint added for it, or to what it mapped to before when none was added |
| Endpoints.LastWriterWins | day2/day2.py:24-26 | an endpoint added at position i is the final answer for its MAC unless a later add uses the same MAC |
| Endpoints.Untouched | day2/day2.py:24-26 | a MAC that no add mentions keeps its previous answer |
| Endpoints.InsertAllPresentKeepsOrder | day2/day2.py:32-35 | re-adding only known MACs leaves the listing order unchanged |
| Endpoints.InsertAllIdempotent | day2/day2.py:24-26 | repeating the same sequence of adds changes neither entries nor order |
| Endpoints.Registry.constructor | day2/day2.py:12-13 | the registry starts empty and well-formed |
| Endpoints.Registry.Add | day2/day2.py:24-26 | the registry's new state is `Insert` of the old state and the endpoint, and a well-formed registry stays well-formed |
| Endpoints.Registry.PrintAll | day2/day2.py:32-35 | one line per endpoint, rendered in insertion order |
| Endpoints.SviEndpoint | day2/day2.py:46-56 | an interface yields an endpoint exactly when link and protocol are up and the hardware type is EtherSVI; the endpoint is on port "SVI", with the interface name as VLAN and the interface address as MAC |
| Endpoints.SwitchSvisMembers | day2/day2.py:46-56 | one switch's SVI endpoints are exactly the endpoints its interfaces yield |
| Endpoints.SviEndpointsBySwitch | day2/day2.py:41-56 | an endpoint is in pass 1's output exactly when it is among the SVI endpoints of some switch |
| Endpoints.SviEndpointsMembers | day2/day2.py:41-56 | pass 1's endpoints are exactly those yielded by some interface of some switch |
| Endpoints.Registry.AddSwitchSvis | day2/day2.py:46-56 | one switch's interface loop leaves the registry as `InsertAll` of the old state and that switch's SVI endpoints |
| Endpoints.Registry.AddSviEndpoints | day2/day2.py:39-56 | pass 1 leaves the registry as `InsertAll` of the old state and the SVI endpoints, in output order |
| Endpoints.AccessTupleMembers | day2/day2.py:68-76 | a port is in a switch's access tuple exactly when some record has that interface, a mode other than "down" and admin mode "static access" |
| Endpoints.AccessTupleConcat | day2/day2.py:68-76 | the tuple of two record runs is the first run's tuple followed by the second's (the order is kept) |
| Endpoints.AccessMapKeys | day2/day2.py:62-64 | a switch has an access tuple exactly when it has a switchport output, even one with no access ports |
| Endpoints.AccessMapAt | day2/day2.py:62-76 | with distinct switch names, each switch maps to the access tuple of its own records |
| Endpoints.AccessPorts | day2/day2.py:58-80 | pass 2's loops compute exactly `AccessMap` |
| Endpoints.JoinEntriesShape | day2/day2.py:88-96 | one switch's MAC rows either complete, appending its joined endpoints, or stop at the first row that raises KeyError, keeping what was added before; earlier adds are always kept as a prefix, and a switch with no access tuple adds nothing |
| Endpoints.MacJoinKeepsEarlierAdds | day2/day2.py:84-96 | the endpoints pass 3 adds for the first n switches are a prefix of those it adds for all of them, whether or not a KeyError comes later |
| Endpoints.MacJoinKeyError | day2/day2.py:84-94 | pass 3 raises KeyError exactly when some non-STATIC row belongs to a switch with no access tuple |
| Endpoints.MacJoinMembers | day2/day2.py:84-96 | when pass 3 completes, its endpoints are exactly the non-STATIC rows whose port is in their switch's access tuple, each with the row's switch, port, VLAN and MAC |
| Endpoints.Registry.AddMacEndpoints | day2/day2.py:82-96 | pass 3 reports completion exactly when the join completes, and the registry becomes `InsertAll` of the old state and the endpoints added, including those added before a KeyError |
| Endpoints.Correlate | day2/day2.py:37-96 | the build keeps a store well-formed and never drops a MAC, and it completes exactly when no non-STATIC MAC row belongs to a switch without switchport output |
| Endpoints.CorrelateLookup | day2/day2.py:37-96 | after the build, a MAC maps to the last endpoint that pass 1 or pass 3 added for it, or to its previous answer when neither added one |
| Endpoints.Registry.BuildEndpoints | day2/day2.py:37-96 | the build's new state and completion flag are `Correlate` of the old state and the three outputs, and the registry stays well-formed |
| Endpoints.CorrelateCompletes | day2/day2.py:62-94 | when every switch with a MAC table also has switchport output, the build completes |
| Endpoints.CorrelateIdempotent | day2/day2.py:37-96 | running the build a second time on the same outputs gives the same registry and the same completion flag |
| Endpoints.SviScenario | day2/day2.py:46-56 | on SW1 an up/up EtherSVI Vlan10 is registered on port "SVI" and a down Vlan20 is not |
| Endpoints.AccessPortScenario | day2/day2.py:68-96 | on SW1, a dynamic MAC on an access port is registered, while a STATIC one and one on a trunk port are not |
| Text.NatToString | day1/devnet_day1.py:24-25 | a count renders as a nonempty digit string with no leading zero; 0 renders as exactly "0" and is the only count whose rendering starts with '0' |
| Text.DecimalValue | day1/devnet_day1.py:30 | `int()` of a digit string is zero exactly when every digit is '0', which is what the `percent == 0` test of `is_alive` (line 39) sees |
| Text.DecimalRoundTrip | day1/devnet_day1.py:30 | reading back a rendered count gives the count |
| Text.ContainsPiece | day1/devnet_day1.py:25 | a string built as a + sub + b contains sub, and an occurrence starts right after a |
| Qualification.DeviceResult.constructor | day1/devnet_day1.py:17-22 | a new record has CDP OFF, 0 peers, clock unsync, PE, and no hardware or software yet |
| Qualification.DeviceResult.Summary | day1/devnet_day1.py:24-25 | the line starts with name, hw, sw, the image class and "CDP is ", and ends with "Clock is " followed by the clock state |
| Qualification.SummaryShowsSync | day1/devnet_day1.py:24-25 | the summary ends in "Clock is sync" exactly when the clock is synchronised |
| Qualification.SummaryShowsCdp | day1/devnet_day1.py:24-25 | right after "CDP is " the line holds the CDP word, ", ", the neighbour count's digits and " peers; "; the word is ON exactly when CDP is on, and the digits are the count rendered in decimal |
| Qualification.SummaryLength | day1/devnet_day1.py:24-25 | the line has exactly the length of its fields and separators, so prefix, CDP piece and clock suffix fix it completely |
| Qualification.RunEnd | day1/devnet_day1.py:28-29 | a digit run extends to its maximal end |
| Qualification.TokenEndsAtRunEnd | day1/devnet_day1.py:28-29 | a `PercentToken` at i always ends where the digit run from i ends |
| Qualification.FindToken | day1/devnet_day1.py:27-29 | the search finds the leftmost `PercentToken` from a given position, or reports that there is none |
| Qualification.NoTokenInsideRun | day1/devnet_day1.py:28-29 | no `PercentToken` (a regex match that starts where its digit run starts) begins inside a digit run, nor at it when " percent" does not follow the run |
| Qualification.PingPercent | day1/devnet_day1.py:27-30 | the percentage is absent exactly when the reply has no `PercentToken`; otherwise it is the value of the digits of the leftmost one |
| Qualification.MatchRunStart | day1/devnet_day1.py:28-29 | every match of `(\d+) percent`, even one starting inside a digit run, has a `PercentToken` with the same end at or before its start |
| Qualification.PingPercentNoneIff | day1/devnet_day1.py:27-30 | `ping_percent` fails exactly when the regular expression has no match in the reply |
| Qualification.LeftmostMatchValue | day1/devnet_day1.py:27-30 | the leftmost match of the regular expression, which `re.search` returns, gives the percentage as the value of its digits |
| Qualification.LeftmostTokenValue | day1/devnet_day1.py:27-30 | for a `PercentToken` with no earlier one, the percentage is the value of its digits |
| Qualification.NoPercentWordFails | day1/devnet_day1.py:27-30 | a reply without " percent" gives no percentage |
| Qualification.HundredPercent | day1/devnet_day1.py:27-30 | "100 percent" reads as 100 |
| Qualification.ZeroPercent | day1/devnet_day1.py:27-30 | "0 percent" reads as 0 |
| Qualification.TenPercent | day1/devnet_day1.py:27-30 | "10 percent" reads as 10, not 0 |
| Qualification.IosPingReply | day1/devnet_day1.py:27-30 | the IOS reply "Success rate is 80 percent (4/5)" reads as 80 |
| Qualification.IsAlive | day1/devnet_day1.py:32-41 | a ping that raises means not alive; a reply without a percentage raises (no verdict); otherwise the server is alive exactly when the percentage is not zero |
| Qualification.AliveExamples | day1/devnet_day1.py:32-41 | a raised ping, a 0 percent reply and a 100 percent reply give false, false and true |
| Qualification.ImageClassOf | day1/devnet_day1.py:89-90 | an image name containing "NPE" marks the device NPE; otherwise the previous class stays |
| Qualification.NtpConfig | day1/devnet_day1.py:100-101 | the pushed block is exactly the "ntp server" line for the server followed by the GMT timezone line: that prefix, that suffix, and nothing between them |
| Qualification.NtpConfigServer | day1/devnet_day1.py:100-101 | the server address reads back from the block, so different servers push different blocks |
| Qualification.NtpVerdict | day1/devnet_day1.py:97-116 | the section errors exactly when the ping reply has no percentage; an unreachable server fails with "NTP-server unreacheable" before configuration counts; a failed push fails with "something goes wrong when try to set NTP-server"; a missing status fails with an empty message; a pass has an empty message |
| Qualification.NtpPassesIff | day1/devnet_day1.py:97-116 | the NTP section passes exactly when the server is alive, the push succeeded and the parsed status is "synchronized" |
| Qualification.OtherStatusFails | day1/devnet_day1.py:114-116 | a reachable, configured device whose status is anything other than "synchronized" fails with "ntp status=<status>" |
| Qualification.BackupPath | day1/devnet_day1.py:65 | the path is exactly "./backup/<name>_<stamp>.txt": that prefix, that suffix, and nothing between them |
| Qualification.BackupPathInjective | day1/devnet_day1.py:65 | for equal-length stamps, different devices or stamps never share a backup path |
| Qualification.ResultTable.constructor | day1/devnet_day1.py:14 | the result table starts empty |
| Qualification.ResultTable.TestCdp | day1/devnet_day1.py:72-82 | the device gets a fresh default record and others are untouched; on a parse it is CDP ON with the neighbour count and passes with "CDP is ON, nbrs=<n>"; otherwise it fails with "CDP not enabled" and keeps the defaults |
| Qualification.ResultTable.TestSoftware | day1/devnet_day1.py:85-92 | it records platform and image, sets NPE when the image name contains "NPE", and passes with "<version> image=<image> with NPE" or "... PE"; a failed parse or a device with no record errors and changes nothing; the table stays well-formed |
| Qualification.ResultTable.TestNtp | day1/devnet_day1.py:95-118 | the verdict is taken on whether the device accepts exactly the `NtpConfig` block; when it is not a pass, the outcome is that verdict and nothing changes; otherwise the device's clock becomes sync, nothing else changes, and the section passes |

## Left out

- Fetching the command outputs goes through Nornir, netmiko and ntc_templates. These are
  external libraries, so the parsed outputs are inputs, as sequences of typed records in the
  order the libraries return them.
- The `print` calls on skipped interfaces and access tuples are left out, because they are
  console output only. So are `argparse`, the `__main__` blocks, logging and pyATS banners.
- The final print of `RESULTS` is left out. `Summary` needs hw and sw, as the source's
  `__str__` needs them to have been set.
- The aetest framework is outside this model: the device loop, the generator, the `testbed`
  and `ntp` arguments, the `connect` setup and its `goto exit`, and the `disconnect` cleanup.
  Each section is a method that is given the device's outcomes.
- make_backup: only the path it writes is modelled. The `show run` call, the directory
  creation, the file write and its "failed to backup" path are I/O. The `strftime` timestamp
  is a parameter.
- Device calls are outcome parameters, not executed: `parse`, `ping`, and `configure` with
  `execute('wr')` as one predicate on the block.
  The model does not reproduce the exception messages.
- Nornir runs commands on several hosts concurrently, and the model leaves this out. The
  passes consume the already-collected results in order.
- `\d` in `ping_percent` is modelled as ASCII digits. Python 3 also matches other Unicode
  decimal digits.
- The registry store does not model the aliasing of Python `EndPoint` objects that `get`
  returns. Endpoints are values.
- Endpoints.Registry.AddSviEndpoints and Endpoints.Registry.AddMacEndpoints: state their new
  store as `InsertAll` of the old one, not well-formedness itself; that follows from
  `InsertAllWellFormed`, and `BuildEndpoints` states it.
- `get` is the function `Lookup` on the registry's entries, not a method of `Registry`.
- Qualification.ResultTable.TestSoftware: states only that the section errors on a failed
  parse or a missing record, not the exception text.
- Qualification.ResultTable.TestNtp: states only that the section errors when the device has
  no record; the text of the `TypeError` is not modelled either.
