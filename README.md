# Hirschmann switch coordinator, modelled in Dafny

This project models the SNMP polling coordinator of the Home Assistant
integration for Hirschmann network switches (`NetworkSwitchCoordinator` in
`custom_components/hirschmann_switches/coordinator.py`). The coordinator owns
four pieces of state:

- the discovered Ethernet ports (ifIndex to name);
- the PoE mapping: from a port key to the `group.port` text of its pethPsePortTable row (section 5 of RFC 3621). The key is the last component of the row identifier (pethPsePortIndex), and the poll looks it up as an ifIndex;
- the device metadata;
- the last published per-port snapshot.

Every poll cycle merges several unordered and possibly incomplete SNMP tables
into that snapshot. Two control calls switch a port or its PoE supply on and
off with an SNMP SET.

The device is modelled as a deterministic `Snmp.Transport` value handed to the
coordinator:

- for every GET, an answer: an error flag (set for a timeout, an error indication or an error status) and the returned values. The model also has a `Raise` outcome, the `UpdateFailed` of the coordinator's GET wrapper when no backend exists (`coordinator.py:222-223`). A device never produces it, because the backend is built in `__init__`, but the `except UpdateFailed` handlers around each GET are modelled on it;
- for every walk, either a failure or its rows in order;
- for every SET, whether the device refuses it.

An SNMP value carries its `str()` text and the outcomes of `int()` and
`bytes()` on it, where `None` is the exception. The sent SETs are logged in
the class's `writes` field.

Modules, in dependency order:

- `Wrappers` (`wrappers.dfy`): `Option`, `Outcome`, `Result`, and `dict.get` with a default.
- `PyText` (`pytext.dfy`): the Python string operations the code relies on, written out exactly:
  - `str.strip` with Python's whitespace set;
  - `str.split` on one character and `sep.join`;
  - `split(marker, 1)[0]`;
  - `int(str)` (sign, surrounding whitespace, single underscores between digits);
  - `str(int)`.
- `Snmp` (`snmp.dfy`): the OIDs and codes of `const.py`, the transport, and the credentials of reads and writes.
- `Naming` (`naming.dfy`): `normalize_port_name`, the row index `int(oid.split(".")[-1])`, and the PoE row parser.
- `Tables` (`tables.dfy`): what the row loops build. Dictionaries keep the last row per key, and rows that fail to convert are skipped.
- `DeviceInfo` (`meta.dfy`): the identity metadata (MAC rendering, scalar fallback to `.0`, firmware trimming) and the temperature and uptime refreshes.
- `Polling` (`polling.dfy`): one poll cycle as a function `Cycle(transport, state)`, with its properties.
- `Coordinator` (`coordinator.dfy`): the class `NetworkSwitchCoordinator`. Its fields are the state above. Its methods are the source's loops and updates, and each is proved to do what the functions of `Polling` and `DeviceInfo` say.

`UpdateData` is proved to produce exactly `Cycle(transport, old(State()))`, so
every lemma about `Cycle` is a statement about the class.

The model follows the code where it departs from what a reader of the
integration's documentation might expect:

- `async_set_admin_status` sends its SET for any index, known port or not (`coordinator.py:436-443`).
- The PoE mapping is keyed by the last OID component alone. Two PSE groups with the same port number therefore collide, and the later row wins (`coordinator.py:263-265`; `Naming.PoeRowOfChild`).
- Nothing makes the PoE mapping's keys a subset of the ports.

A PoE reading whose value does not convert to an integer raises out of
`_async_update_data` (`coordinator.py:391, 400, 414`). This is modelled as the
cycle failing with `ConversionError`, and the previous snapshot stays
published. The model does not assume such readings away.

## Model

| member | source | states |
|---|---|---|
| `Naming.NormalizePortName` | custom_components/hirschmann_switches/coordinator.py:72-77 | A name with at most one `/` is unchanged. Otherwise the result is exactly the text after the first `/`, and its segments are the original segments minus the first, in order. |
| `Naming.NormalizeTwoSlashesStable` | custom_components/hirschmann_switches/coordinator.py:72-77 | A name with exactly two slashes is stable after one normalisation. |
| `Naming.RowIndexOfChild` | custom_components/hirschmann_switches/coordinator.py:236-237 | A row OID `<column>.<n>` yields the row index `n`. |
| `Naming.RowIndexOfNonInteger` | custom_components/hirschmann_switches/coordinator.py:244-248 | A row OID whose last component is not an integer yields no index, so the row is skipped. |
| `Naming.PoeRowOfChild` | custom_components/hirschmann_switches/coordinator.py:260-267 | A pethPsePortTable row `<column>.<group>.<port>` maps key `port` to the text `group.port`. |
| `Naming.PoeRowSkips` | custom_components/hirschmann_switches/coordinator.py:260-267 | A pethPsePortTable row gives a key exactly when its identifier has a dot and its last component is an integer, and that integer is the key. Rows with one component or a non-integer last component are skipped. |
| `Tables.TabulateSpec` | custom_components/hirschmann_switches/coordinator.py:243-250 | A dictionary built row by row has a key exactly when some row is an entry for it, with the value of the last such row. |
| `Tables.CollectSpec` | custom_components/hirschmann_switches/coordinator.py:233-241 | A set built row by row contains a key exactly when some row adds it. |
| `Tables.PortsOfSpec` | custom_components/hirschmann_switches/coordinator.py:231-251 | Discovered ports are exactly the indexes with an ifType row of ethernetCsmacd(6) and an ifName row. Each is named by its last ifName row. |
| `Tables.PoeMappingKeys` | custom_components/hirschmann_switches/coordinator.py:253-268 | The PoE mapping has key `k` exactly when some walked row has a dot and ends in the integer `k`. Malformed rows never add a key. |
| `Tables.TabulateLast` | custom_components/hirschmann_switches/coordinator.py:243-250 | An entry for key `k` with no later entry for `k` puts `k` in the dictionary with that entry's value. |
| `Tables.PoeMappingLastRow` | custom_components/hirschmann_switches/coordinator.py:260-267 | A PoE row keyed `k` with text `gp`, followed by no row ending in `k`, maps `k` to `gp` in the PoE mapping of the whole walk. |
| `Snmp.WriteAuth` | custom_components/hirschmann_switches/coordinator.py:177-183 | SETs use the stripped write community, with the same mpModel, only for v1/v2c and only when it is non-blank. Otherwise they use the read credentials. |
| `Snmp.DetectStatusNameDecodes` | custom_components/hirschmann_switches/const.py:61-68 | Codes 1 to 6, and only they, render as one of the six detection names. Every other code renders as a text that parses back to the code. |
| `Snmp.DetectStatusNameInjective` | custom_components/hirschmann_switches/coordinator.py:400-403 | Different detection codes never share a rendering. |
| `PyText.StripSpec` | custom_components/hirschmann_switches/coordinator.py:314 | `strip()` returns the middle of the text between maximal whitespace runs. |
| `PyText.DecimalRoundTrip` | custom_components/hirschmann_switches/coordinator.py:439 | An index rendered into an OID parses back to itself. |
| `DeviceInfo.MacRoundTrip` | custom_components/hirschmann_switches/coordinator.py:299-301 | The colon-separated hex rendering of any number of bytes reads back to those bytes. |
| `DeviceInfo.MacStringLength` | custom_components/hirschmann_switches/coordinator.py:301 | `n` bytes render as `3n - 1` characters and no bytes as the empty text, with no length check. |
| `DeviceInfo.FirstTextSpec` | custom_components/hirschmann_switches/coordinator.py:270-280 | A scalar text is found exactly when some candidate is readable. It is the text of the first readable candidate. |
| `DeviceInfo.ScalarStrSpec` | custom_components/hirschmann_switches/coordinator.py:270-280 | A readable base is used without `.0`. `.0` is used only when the base is unreadable. The result is `None` only when both are unreadable. |
| `DeviceInfo.BeforeFirstMarker` | custom_components/hirschmann_switches/coordinator.py:314 | `split("RAM:", 1)[0]` is the text up to the first marker. |
| `DeviceInfo.FirmwareVersionSpec` | custom_components/hirschmann_switches/coordinator.py:310-314 | The firmware is the text before the first `RAM:` (all of it when absent), stripped of surrounding whitespace. |
| `DeviceInfo.FirmwareOfRamLine` | custom_components/hirschmann_switches/coordinator.py:310-314 | `"v1.2.3 RAM:256k FLASH:..."` gives `"v1.2.3"`. |
| `DeviceInfo.IdentityMetaSpec` | custom_components/hirschmann_switches/coordinator.py:282-334 | Each identity entry is present exactly when its own read answered; the PoE budget also needs an integer, and is then that integer. The name is the sysName text. A MAC that converts to bytes parses back to those bytes, and otherwise is the value's text. Hardware and firmware come from the base object, or from `.0` when the base is unreadable; the firmware is cut at the first `RAM:` and stripped. The fetch never fails as a whole and starts without metrics. |
| `DeviceInfo.TemperatureFromSpec` | custom_components/hirschmann_switches/coordinator.py:465-488 | The first candidate whose value converts is stored. With none converting, the entry is left alone exactly when no candidate answered; otherwise it is removed. |
| `DeviceInfo.TemperatureUpdateSpec` | custom_components/hirschmann_switches/coordinator.py:465-488 | A converting base wins without consulting `.0`. The temperature is removed exactly when neither converts and at least one answered. |
| `DeviceInfo.InvalidTemperatureClears` | custom_components/hirschmann_switches/coordinator.py:486-488 | An unconvertible answer after a stored temperature leaves no temperature, neither the old value nor zero. |
| `DeviceInfo.UptimeSpec` | custom_components/hirschmann_switches/coordinator.py:490-512 | Uptime is stored exactly when sysUpTime converts, as ticks/100. It is kept when the read fails and removed when the value does not convert. |
| `DeviceInfo.UptimeOfTicks` | custom_components/hirschmann_switches/coordinator.py:501-502 | 123456 ticks are 1234.56 seconds. |
| `DeviceInfo.MetricsKeepIdentity` | custom_components/hirschmann_switches/coordinator.py:460-463 | A metrics refresh changes only temperature and uptime. A full population starts the metrics from absent. |
| `Polling.EnabledReadingSpec` | custom_components/hirschmann_switches/coordinator.py:386-393 | PoE enabled is true exactly for a clean answer of 1, unknown exactly when the GET raised, and aborts exactly on an unconvertible answer. |
| `Polling.PoeStatusSpec` | custom_components/hirschmann_switches/coordinator.py:382-417 | A PoE record exists exactly when none of its three readings aborts. Enabled and detection are kept as read even when power is missing, and power is present exactly when its GET answered. When power is present it is the integer the power GET returned. |
| `Polling.PowerOidIndex` | custom_components/hirschmann_switches/coordinator.py:408-412 | Power is read at the row of the interface index itself. |
| `Polling.SnapshotSpec` | custom_components/hirschmann_switches/coordinator.py:379-424 | The merge fails exactly when some known PoE port's readings abort. Otherwise it has a record for exactly the known ports. |
| `Polling.SnapshotRecord` | custom_components/hirschmann_switches/coordinator.py:379-424 | Each record has the port's name and its oper status (`Down` when missing). Admin state is off when missing. PoE data is present exactly for PoE ports. |
| `Polling.LastEntryUnique` | custom_components/hirschmann_switches/coordinator.py:359-373 | A port has at most one deciding (last) row in a status walk. |
| `Polling.StatusFromRows` | custom_components/hirschmann_switches/coordinator.py:357-373 | A port is `Up` (or on) exactly when its last convertible row says 1. No such row gives `Down` (or off). |
| `Polling.FailedCycleKeepsSnapshot` | custom_components/hirschmann_switches/coordinator.py:342-424 | A failed cycle leaves the published snapshot as it was. A failed discovery changes nothing. |
| `Polling.CycleCoversPorts` | custom_components/hirschmann_switches/coordinator.py:379-424 | A successful cycle publishes a record for exactly the known ports, whatever the status walks returned. |
| `Polling.StatusWalkFailureFails` | custom_components/hirschmann_switches/coordinator.py:357-373 | A failed oper or admin walk fails the cycle with that walk's identifier. |
| `Polling.DiscoveryOnlyWhileEmpty` | custom_components/hirschmann_switches/coordinator.py:350-355 | Ports and identity are read only while no port is known; the port map is then replaced wholesale. A known PoE mapping is never walked again. |
| `Polling.PoeDiscoveryNeverFails` | custom_components/hirschmann_switches/coordinator.py:253-268 | In each cycle whose status walks succeed, an empty PoE mapping is rediscovered. A failed PoE walk leaves it empty, and the cycle still passes. |
| `Polling.CyclePortRecord` | custom_components/hirschmann_switches/coordinator.py:357-424 | In a successful cycle, port `k`'s record holds its discovered name. Status is `Up` and admin on exactly when the last rows say 1. PoE data is present exactly for PoE ports. |
| `Coordinator.TabulateRows` | custom_components/hirschmann_switches/coordinator.py:243-250 | The row loop builds exactly the dictionary `Tabulate` describes. |
| `Coordinator.CollectRows` | custom_components/hirschmann_switches/coordinator.py:233-241 | The row loop builds exactly the set `Collect` describes. |
| `Coordinator.NetworkSwitchCoordinator.constructor` | custom_components/hirschmann_switches/coordinator.py:193-214 | A new coordinator knows no ports, no PoE mapping, no metadata and no snapshot, and has sent nothing. |
| `Coordinator.NetworkSwitchCoordinator.DiscoverPorts` | custom_components/hirschmann_switches/coordinator.py:231-251 | On success the port map becomes the discovered one. A failed walk leaves it unchanged and reports that walk. |
| `Coordinator.NetworkSwitchCoordinator.DiscoverPoe` | custom_components/hirschmann_switches/coordinator.py:253-268 | The PoE mapping becomes the one parsed from the walk, or empty when the walk failed. |
| `Coordinator.NetworkSwitchCoordinator.GetScalarStr` | custom_components/hirschmann_switches/coordinator.py:270-280 | The candidate loop returns `ScalarStr`: base first, then `.0`. |
| `Coordinator.NetworkSwitchCoordinator.PopulateDeviceMeta` | custom_components/hirschmann_switches/coordinator.py:282-336 | The metadata becomes the fresh identity with refreshed metrics. |
| `Coordinator.NetworkSwitchCoordinator.UpdateDeviceMetrics` | custom_components/hirschmann_switches/coordinator.py:460-463 | Temperature, then uptime, are refreshed. Nothing else changes. |
| `Coordinator.NetworkSwitchCoordinator.UpdateTemperature` | custom_components/hirschmann_switches/coordinator.py:465-488 | The candidate loop with its `found_invalid` flag applies exactly `TemperatureUpdate`. |
| `Coordinator.NetworkSwitchCoordinator.UpdateUptime` | custom_components/hirschmann_switches/coordinator.py:490-512 | Only the uptime entry changes, as `UptimeUpdate` says. |
| `Coordinator.NetworkSwitchCoordinator.ReadPoe` | custom_components/hirschmann_switches/coordinator.py:383-417 | The three PoE reads of one port give exactly `PoeStatusOf`. |
| `Coordinator.NetworkSwitchCoordinator.MergePorts` | custom_components/hirschmann_switches/coordinator.py:379-424 | The merge loop over the known ports, in any order, gives exactly `Snapshot`. |
| `Coordinator.NetworkSwitchCoordinator.UpdateData` | custom_components/hirschmann_switches/coordinator.py:342-424 | One cycle changes the state and reports the outcome exactly as `Cycle` does. |
| `Coordinator.NetworkSwitchCoordinator.SetInteger` | custom_components/hirschmann_switches/coordinator.py:171-187 | One SET is logged with the write credentials. It fails exactly when the device refuses it. |
| `Coordinator.NetworkSwitchCoordinator.SetAdminStatus` | custom_components/hirschmann_switches/coordinator.py:436-443 | Sends `ifAdminStatus.<index>` with 1 or 2 for any index. It fails exactly when refused. |
| `Coordinator.NetworkSwitchCoordinator.SetPoeAdmin` | custom_components/hirschmann_switches/coordinator.py:445-453 | A port without a PoE mapping fails before anything is sent. Otherwise it sends `pethPsePortAdminEnable.<group.port>` and fails exactly when refused. |
| `Coordinator.AdminWriteReadsBack` | custom_components/hirschmann_switches/coordinator.py:436-443 | The admin SET targets row `ifIndex`. Reading its value back gives the requested admin state. |
| `Coordinator.PoeWriteReadsBack` | custom_components/hirschmann_switches/coordinator.py:445-453 | The PoE SET targets the row the poll reads enabled from. Reading its value back gives the requested state. |
| `Coordinator.PoeWriteTargetsDiscoveredRow` | custom_components/hirschmann_switches/coordinator.py:257-267 | In any pethPsePortTable walk, a port whose deciding row is `<column>.<g>.<p>` (no later row carries the same port key) is in the mapping and is switched at `pethPsePortAdminEnable.<g>.<p>`. |
| `Coordinator.SetRequestCredentials` | custom_components/hirschmann_switches/coordinator.py:177-183 | v3 writes use the user. v1/v2c writes use the non-blank stripped write community, or else the read community, with mpModel 0 for v1 and 1 for v2c. |

## Left out

- Transport mechanics of `_V3ArchBackend` (`coordinator.py:80-169`) are left out: the pysnmp engine, USM protocol mapping, IPv4/IPv6 target choice and bulk-walk paging are I/O in a foreign library. The transport is given as data.
- The `int(float(str(v)))` fallback for temperature and uptime, and `round(..., 2)`, are left out because floating point is out of scope. A value without an integer conversion counts as unconvertible, and uptime is the exact real `ticks / 100`.
- DeviceInfo.TemperatureUpdate and DeviceInfo.UptimeUpdate: a text such as `"inf"` makes the fallback raise `OverflowError` (`coordinator.py:480, 505`), which is not caught and fails the cycle. The model treats such a value as unconvertible instead.
- Polling.EnabledReading: the falsy empty list that `coordinator.py:391` stores when a GET returns no bindings is modelled as `false`.
- Polling.PoeStatus: an absent `power_w` key is modelled as `None`.
- Coordinator.NetworkSwitchCoordinator.MergePorts: the order in which a dictionary is iterated is left open. A failing port's error therefore carries no port, and only the key set and values of the snapshot are stated.
- `int()` on text is modelled for ASCII digits only. Python also accepts other Unicode decimal digits, which never appear in SNMP object identifiers.
- The `if not self._backend` checks are left out: in the walk wrapper (`coordinator.py:226-227`), at the start of `_async_update_data` (`coordinator.py:348-349`), in `async_set_admin_status` (`coordinator.py:440-441`) and in `async_set_poe_admin` (`coordinator.py:451-452`). The backend is always constructed in `__init__`. The check of the GET wrapper is kept only as the `Raise` outcome described above.
- An exception from pysnmp other than `UpdateFailed` is left out. Such an exception (say, a malformed OID or an engine error) propagates out of a GET and fails the whole cycle, but the transport here has no such outcome. It is an error of the foreign library, not something the coordinator handles.
- `async_test_connection`, `async_close`, `device_meta` and `_safe_str` are left out. The first two are connection plumbing, `device_meta` is a copy, and `str()` on an SNMP value is taken as given.
- Async scheduling, the update timer and concurrency are left out. Each cycle and each control call is one sequential method. The coordinator framework keeping the last returned snapshot is modelled by the `data` field.
- Coordinator.NetworkSwitchCoordinator: the transport is a `const` field, so one object sees the same device answers for its whole lifetime. Two `UpdateData` calls on one object cannot show a device whose readings change between polls, for example a stored temperature followed by an invalid reading, or a SET followed by a refresh that reads it back. The lemmas about `Cycle` take any transport and any prior state and cover those sequences at the level of the specification.
- The presentation entities, config flow, diagnostics and integration set-up are not part of this model.
