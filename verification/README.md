# Nagios plugins: leases, adapters, probes, racks, queues, balance

A Dafny model of the plugins of this repository that carry logic of their own, with
proofs about it:

- **ISC dhcpd leases** (`text`, `sums`, `host_order`, `lease_text`, `lease_current`,
  `lease_policy`, `lease_listing`, `dhcpd_leases`): the lease file parser, the sort by
  host, the whitelist and blacklist passes and the listings of `check_dhcpd_leases.py`.
- **Output adapters** (`perfdata`, `adapter_csv`, `perfdata_format`, `adapter_geneos`,
  `adapter_check_mk`): turning a plugin's `message | perfdata` into formats that have no
  quoting.
- **HBase write spray** (`hbase_probe`): writing, reading back and deleting one cell for
  every column family and region, whatever the calls to the server give.
- **HDFS racks** (`rack_topology`): the topology parser and the Ambari grouping.
- **YARN queues** (`yarn_queues`, `yarn_table`): the counters by queue and category, and
  the width of the application table.
- **Balance** (`balance`): region counts, and the imbalance percentages over exact
  numbers.

`text` holds Python's string and list built-ins. Objects whose methods update their
fields are classes; a subclass is a class that holds an object of its base class. Every
method is proved against a function of its inputs or of the old state, and the laws are
lemmas about those functions.

The main results:

- Rendering any list of lease declarations and parsing the text gives, for every address,
  the last declaration that is visible and read as active (`LeaseText.RoundTrip`), and
  from there the flagged addresses are those whose declaration of this kind breaks a rule,
  whatever is displayed (`LeasePolicy.FlaggedInFile`).
- The sort by host ends with the one list in strict (host, key) order, and the
  unauthorised listing is the full listing without the authorised leases.
- For every plugin output, a CSV row or Check_MK line decodes to the fields it was made
  of; a Geneos row does so exactly when the command's name holds no comma, and Check_MK
  perfdata exactly when no header holds a bar.
- A spray leaves at most the cell in flight behind, in every state it passes through,
  whatever its calls give, if the server has applied each put and delete that returns; and
  its timing table holds maxima.
- The topology parser and the Ambari grouping find the same racks and report the same.
- Counters and region counts are conserved, up to the exact exceptions below.

Where the code does less than its description says, the model follows the code and the
exact condition is proved:

- A lease is dropped when a line inside its braces contains the word "lease", for example
  a client named `release1` (`RecordOfEntry`, `NamedLease`, `LeaseInHostname`).
- The leases recorded are not always the current ones, those whose last declaration in the
  file is active. Exactly the stale addresses are recorded without being current: one
  declaration was recorded, and the last is not active, for example free or released
  (`EndedLease`). Exactly the missed ones are current without being recorded: the last
  declaration is active, and none was recorded. A current lease is misread when an older
  declaration is recorded in place of a last one with the word "lease", and gives another
  name or MAC (`OldNameKept`), or when its name is not one word, or one with a quote at an
  end (`NameKept`, `MisreadIs`). The parser finds the current leases exactly when no address
  is stale, missed or misread (`ParsedIsCurrent`).
- So stale addresses can be flagged falsely, and a client on a blacklist evades it by the
  word "lease" in its name; `FlaggedAndCurrent` says exactly which addresses are flagged
  falsely and which offenders are not (`EvadesByName`, `Release1Evades`).
- A lease whose next state, or the state it can be rewound to, is active is read as active
  (`EntryActive`).
- A MAC address given in the advertised form `aa-bb-cc-dd-ee-ff` passes the format check
  and never matches a lease (`DashedEntriesNeverMatch`, `AdvertisedDashForm`).
- A perfdata label reaches the header exactly when it is one word, and is not quoted in
  front of a value with a unit; a comma parts words like a space (`LabelSurvives`). The
  lease check's own label `'DHCP Leases'` becomes `LEASES`, and a quoted label with a unit
  keeps its closing quote (`ExamplesLost`, `QuoteInHeader`).
- A signed value loses its sign, so that minus five is exported as five (`ValueSurvives`,
  `ExamplesLost`). A comma in the thresholds ends the metric (`CommaInTail`).
- A listing loses a comma that ends its last address, unless MACs are shown; the address
  pattern lets one through (`ListingIsSeparated`, `CommaLost`).
- Applications on a queue called `total` are counted twice in the total of their category
  (`TotalIsSum`, `TotalsConserved`).
- The number of matching queues leaves out a queue called `total` and counts another once
  for each category it has applications in. Without the former it is right exactly when
  no queue is in two categories, with it exactly when one queue is in two and none in
  three (`MatchingQueuesCount`, `TotalNotShown`, `SharedShownTwice`).
- Region servers without a region are not counted: with one of them the true imbalance is
  100, and the one reported is less (`IdleServers`).

`open_lease_file` also collects the text after the opening braces in `leases_array`, and
does not use it (`check_dhcpd_leases.py:453-461`); the model uses the blocks it returns.

## Model

| member | source | states |
|---|---|---|
| HostOrder.SortKeysByHost | check_dhcpd_leases.py:65-90 | The result lists every key of the dictionary exactly once, ordered by host and by key within a host: hosts ascend, and keys of one host do. |
| HostOrder.CollectHosts | check_dhcpd_leases.py:73-75 | The list of hosts has the host of every key, with repetitions. |
| HostOrder.RepeatKeys | check_dhcpd_leases.py:76-79 | For each listed host in turn, the keys of that host in key order. |
| HostOrder.RemoveRepeats | check_dhcpd_leases.py:83-88 | Later repetitions go, the order of first occurrences stays. |
| HostOrder.ExpandOrder | check_dhcpd_leases.py:75-88 | Going through the sorted hosts with their repetitions, the list without repetitions is in strict (host, key) order at every step. |
| HostOrder.OrderUnique | check_dhcpd_leases.py:65-90 | At most one list is in strict (host, key) order, so the result of the sort is determined. |
| HostOrder.RepeatedListSize | check_dhcpd_leases.py:76-79 | Before the repetitions are removed the list has the sum, over the hosts, of the square of the number of leases of the host. |
| HostOrder.FilterOrder | check_dhcpd_leases.py:343-347 | Dropping keys from an ordered list leaves the ordered list of the remaining keys. |
| HostOrder.SortedKeys | check_dhcpd_leases.py:343-345 | The keys sorted by address, each once. |
| Text.LeqIs | check_dhcpd_leases.py:71-75 | Texts are ordered by the first place where they differ, and a beginning comes first. |
| Text.UpperLetter | check_dhcpd_leases.py:155-155 | A small letter becomes the capital at the same place in the alphabet, and nothing else changes. |
| LeaseText.LastMatchSome | check_dhcpd_leases.py:470-476 | The value read from a block comes from a matching line after which no line matches. |
| LeaseText.StatementWords | check_dhcpd_leases.py:472-472 | A statement line written with two spaces of indentation splits into its words. |
| LeaseText.LineMarkers | check_dhcpd_leases.py:41-45 | Each rendered line shows exactly the marker of its kind, and the search for active leases finds the state "active", also as the next state or the one to rewind to. |
| LeaseText.EntryActive | check_dhcpd_leases.py:226-226 | Searching the whole block finds the active marker exactly when one of its lines gives the state, the next state or the rewind state as active. |
| LeaseText.EntryIp | check_dhcpd_leases.py:464-481 | The address of a declaration is read back unless a line inside the braces contains "lease", in which case it is UNKNOWN. |
| LeaseText.EntryNames | check_dhcpd_leases.py:484-524 | The host name read from a declaration is what is read of its last name line, and the MAC is that of its last address line; UNKNOWN without one. |
| LeaseText.NameKept | check_dhcpd_leases.py:491-499 | A client's name is recorded as it is exactly when it is one word without a quote at its ends. |
| LeaseText.AddressParts | check_dhcpd_leases.py:45-45 | What the address pattern accepts begins with three runs of one to three digits, each followed by one character, and a digit. |
| LeaseText.RecordOfEntry | check_dhcpd_leases.py:225-250 | A rendered declaration changes the dictionary exactly when it is read as active and no line inside its braces contains "lease", and then sets its address to its last name and MAC. |
| LeaseText.SplitFile | check_dhcpd_leases.py:453-461 | Splitting a rendered file at closing braces and dropping the last piece gives the rendered declarations. |
| LeaseText.RoundTrip | check_dhcpd_leases.py:212-254 | Parsing a rendered file gives, for every address, its last visible declaration that is read as active, with any comment lines in between and any text at the end. |
| LeaseCurrent.ReadOrCurrent | check_dhcpd_leases.py:225-250 | Address by address: recorded and not current is stale, current and not recorded is missed, and recorded with other values is misread. |
| LeaseCurrent.ParsedIsCurrent | check_dhcpd_leases.py:212-254 | Parsing a rendered file: the addresses recorded without being current are the stale ones, those current without being recorded the missed ones, and all current leases are read exactly when none is stale, missed or misread. |
| LeaseCurrent.EndedLease | check_dhcpd_leases.py:225-226 | A lease that is active and then in any other state is recorded and not current, for any address. |
| LeaseCurrent.FreeAndReleased | check_dhcpd_leases.py:225-226 | The states free and released are two of them. |
| LeaseCurrent.MisreadIs | check_dhcpd_leases.py:225-250 | A current lease whose last declaration is visible is misread exactly when names are read and its name is not one plain word; if that declaration is hidden, an older one is recorded. |
| LeaseCurrent.OldNameKept | check_dhcpd_leases.py:470-476 | A client that changes its name to one with the word "lease" is recorded under the old one. |
| LeaseCurrent.NamedLease | check_dhcpd_leases.py:470-476 | An active lease with one name is recorded, and not missed, exactly when the name is free of the word "lease". |
| LeaseCurrent.LeaseInHostname | check_dhcpd_leases.py:470-476 | An active lease whose client is called release1 is not recorded. |
| LeasePolicy.OffendsIsFails | check_dhcpd_leases.py:264-333 | A lease fails an enabled pass exactly when it is off a given whitelist or on a blacklist, host names compared without case and MACs without case and colons. |
| LeasePolicy.EntriesParted | check_dhcpd_leases.py:152-153 | A comma or white space parts the entries of a list. |
| LeasePolicy.ListRead | check_dhcpd_leases.py:297-300 | A comma separated list has exactly the entries it was written with. |
| LeasePolicy.OffendsInWords | check_dhcpd_leases.py:257-333 | In terms of the entries written, anywhere in the lists: a lease offends exactly when a whitelist given has no entry for it or a blacklist has one. |
| LeasePolicy.BlacklistFlags | check_dhcpd_leases.py:295-307 | With a comma separated blacklist of hosts alone, exactly the leases whose host is an entry are flagged. |
| LeasePolicy.AnyOrder | check_dhcpd_leases.py:257-277 | In whatever order the four passes run, the flagged addresses are exactly those whose lease offends the rules. |
| LeasePolicy.PassesVerdict | check_dhcpd_leases.py:257-333 | The dictionary of unauthorised leases: the host as recorded, and the normalised MAC where only address rules fail. |
| LeasePolicy.RunChecksHosts | check_dhcpd_leases.py:280-333 | Every flagged address is in the address dictionary under the same host name. |
| LeasePolicy.RespelledIsNormal | check_dhcpd_leases.py:154-155 | Two spellings of a MAC have the same normal form exactly when they differ in colons and letter case only. |
| LeasePolicy.NormalIs | check_dhcpd_leases.py:154-155 | A normal form has no colon and no small letter, and spells the same address. |
| LeasePolicy.NormalIdempotent | check_dhcpd_leases.py:154-155 | Normalising twice is normalising once. |
| LeasePolicy.BareFormat | check_dhcpd_leases.py:157-157 | Without separators the format accepts exactly the hexadecimal texts of the right length. |
| LeasePolicy.FormatAccepts | check_dhcpd_leases.py:157-157 | The format accepts pairs of hexadecimal digits, each but the last followed by a colon, a dash or nothing. |
| LeasePolicy.FormatParts | check_dhcpd_leases.py:157-157 | The format accepts nothing else. |
| LeasePolicy.SpellingIrrelevant | check_dhcpd_leases.py:310-333 | Writing list entries or lease MACs with other colons and case changes neither the format check nor who is flagged. |
| LeasePolicy.DashedEntriesNeverMatch | check_dhcpd_leases.py:154-154 | Against a MAC without dashes, an entry for the same address matches exactly when it has no dash itself. |
| LeasePolicy.AdvertisedDashForm | check_dhcpd_leases.py:621-623 | Any address in the advertised dash form passes the format check and never matches its own colon form. |
| LeasePolicy.Monotone | check_dhcpd_leases.py:257-333 | Longer blacklists flag at least as much; a longer whitelist flags at most as much, if a shorter one is in force. |
| LeasePolicy.SecurityOnIsEnabled | check_dhcpd_leases.py:218-223 | The flag that makes the parser read names and MACs is on exactly when some pass is enabled. |
| LeasePolicy.DisplayIrrelevant | check_dhcpd_leases.py:174-209 | Display options change neither the unauthorised leases nor the recorded addresses. |
| LeasePolicy.FlaggedInFile | check_dhcpd_leases.py:174-333 | On a rendered file the flagged addresses are those whose last visible declaration that is read as active offends the rules, whatever is displayed. |
| LeasePolicy.FlaggedAndCurrent | check_dhcpd_leases.py:225-333 | Flagged without a current lease that offends are exactly the stale offenders and misread ones whose current lease does not offend; not flagged are exactly the missed offenders and misread ones whose recorded lease does not offend. |
| LeasePolicy.EvadesByName | check_dhcpd_leases.py:295-307 | A client whose name is on the blacklist and contains the word "lease" has a current lease that offends, and nothing is flagged. |
| LeasePolicy.Release1Evades | check_dhcpd_leases.py:295-307 | The client release1 is not flagged by a blacklist of its name. |
| LeaseListing.UnauthorizedKeys | check_dhcpd_leases.py:385-392 | The unauthorised keys are the listed keys restricted to the flagged ones, in the same order, for both orders of listing. |
| LeaseListing.UnauthorizedEntries | check_dhcpd_leases.py:402-417 | Every unauthorised entry reads like the entry of the full listing. |
| LeaseListing.ListingAscends | check_dhcpd_leases.py:340-347 | Addresses ascend when sorting by address or without names; otherwise hosts ascend, and addresses within a host. |
| LeaseListing.EntriesAre | check_dhcpd_leases.py:358-365 | How one lease is listed, with and without names and MACs. |
| LeaseListing.TwoLeases | check_dhcpd_leases.py:350-421 | The messages for two leases, whole and compact, and for two offenders. |
| LeaseListing.OneLease | check_dhcpd_leases.py:350-370 | The message for one lease, with and without summary. |
| LeaseListing.OneOrNone | check_dhcpd_leases.py:350-421 | The messages for one offender and for none, and for no lease. |
| Text.DecimalReads | check_dhcpd_leases.py:355-369 | The digits of a number give the number, without leading zero. |
| LeaseListing.ListingIsSeparated | check_dhcpd_leases.py:366-366 | For recorded leases, stripping the trailing separator leaves the separated list of entries exactly when MACs are shown or the last address does not end in a comma. |
| LeaseListing.CommaLost | check_dhcpd_leases.py:45-45 | A file with a lease of "10.0.0.9," is listed without that comma. |
| DhcpdLeases.DhcpdLeaseTester.ValidateNormalizeMacs | check_dhcpd_leases.py:144-164 | The list of normalised entries, and whether all of them have the format of a MAC. |
| DhcpdLeases.DhcpdLeaseTester.GetIp | check_dhcpd_leases.py:464-481 | The second word of the last line with "lease" if it has three words and looks like an address, otherwise UNKNOWN. |
| DhcpdLeases.DhcpdLeaseTester.GetHostname | check_dhcpd_leases.py:484-503 | The second word of the last client-hostname line without semicolon and quotes, UNKNOWN in all other cases. |
| DhcpdLeases.DhcpdLeaseTester.GetMac | check_dhcpd_leases.py:506-524 | The third word of the last hardware ethernet line without semicolon, UNKNOWN in all other cases. |
| DhcpdLeases.DhcpdLeaseTester.ReadBlock | check_dhcpd_leases.py:225-250 | One block updates the dictionary as the record function says. |
| DhcpdLeases.DhcpdLeaseTester.ParseLeases | check_dhcpd_leases.py:212-254 | The dictionary is that of all blocks of the file, and the message is the listing of it. |
| DhcpdLeases.DhcpdLeaseTester.CheckHostWhitelist | check_dhcpd_leases.py:280-292 | Exactly the leases whose host is not listed are written to the unauthorised dictionary, in any order of the dictionary. |
| DhcpdLeases.DhcpdLeaseTester.CheckHostBlacklist | check_dhcpd_leases.py:295-307 | Exactly the leases whose host is listed are written. |
| DhcpdLeases.DhcpdLeaseTester.CheckMacWhitelist | check_dhcpd_leases.py:310-320 | Exactly the leases whose normalised MAC is not listed are written, with that MAC. |
| DhcpdLeases.DhcpdLeaseTester.CheckMacBlacklist | check_dhcpd_leases.py:323-333 | Exactly the leases whose normalised MAC is listed are written, with that MAC. |
| DhcpdLeases.DhcpdLeaseTester.CheckUnauthorizedLeases | check_dhcpd_leases.py:257-277 | The enabled passes run in their order over the old dictionary, and the flag is set when the result is not empty. |
| DhcpdLeases.DhcpdLeaseTester.FormatLeases | check_dhcpd_leases.py:336-370 | Summary, entries in listing order and lease count, as text. |
| DhcpdLeases.DhcpdLeaseTester.FormatUnauthorizedLeases | check_dhcpd_leases.py:373-421 | The unauthorised entries in listing order; the look-up of the original MAC always succeeds. |
| DhcpdLeases.DhcpdLeaseTester.TestLeases | check_dhcpd_leases.py:174-209 | UNKNOWN exactly for an invalid MAC in a list; otherwise CRITICAL exactly when some recorded lease offends the rules, with the unauthorised listing in front. |
| Perfdata.ColumnExists | adapter_csv.py:192-197 | An item becomes a column exactly when a digit follows its first equals sign before the next semicolon. |
| Perfdata.NumeralLeftmostLongest | adapter_csv.py:72-72 | The value starts at the first digit and is the longest numeral there. |
| Perfdata.ColumnChars | adapter_csv.py:193-208 | A column's header has no comma, equals sign or line break, nor a bar unless the item has one; its value is a non-empty run of digits and points ending in a digit. |
| AdapterCsv.FindUsage | adapter_csv.py:114-118 | The first position at a line start where "usage:" stands. |
| AdapterCsv.DescriptionDropped | adapter_csv.py:113-118 | A description that starts with the author's name is dropped up to the first usage line. |
| AdapterCsv.CleanIsPlain | adapter_csv.py:109-123 | A processed message has no comma, carriage return or newline. |
| AdapterCsv.CleanKeeps | adapter_csv.py:109-123 | A message that has none of them is unchanged. |
| AdapterCsv.CleanAtNewline | adapter_csv.py:119-121 | Lines are cleaned one by one and joined by a visible backslash n between two spaces, of which a comma at the end of the line swallows the first; trailing newlines go. |
| AdapterCsv.EllipsisAtComma | adapter_csv.py:122-122 | A comma with the white space after it becomes an ellipsis and a space; everything else stays. |
| PerfdataFormat.PerfdataCleaned | adapter_csv.py:119-191 | For any message without a bar in front, the columns are those of the cleaned perfdata. |
| PerfdataFormat.MessageExported | adapter_csv.py:186-213 | The message field is the cleaned text before the first bar, without white space at its ends. |
| PerfdataFormat.PlainMessage | adapter_csv.py:186-213 | A message without line breaks and commas between white space is exported as it is. |
| AdapterCsv.NoBarInMessage | adapter_csv.py:188-213 | The message field holds no bar. |
| AdapterCsv.NoPerfdata | adapter_csv.py:186-213 | Without a bar everything is message, and there are no columns. |
| Perfdata.UnitsGreedy | adapter_csv.py:72-72 | The unit read is the longest that stands after the value. |
| PerfdataFormat.PerfdataRoundTrip | adapter_csv.py:103-208 | Perfdata written after any message (label of any words, optional quotes, sign, value, unit, thresholds) is exported as one column for each metric, in order. |
| PerfdataFormat.MetricExported | adapter_csv.py:103-208 | The column's header is the last word of the label, with the closing quote if there is a unit, and its value the number without sign. |
| PerfdataFormat.LabelSurvives | adapter_csv.py:103-208 | The header is the label in upper case with its unit exactly when nothing stands before the last word, be it parted by a space or a comma, and the label is not both quoted and followed by a unit. |
| PerfdataFormat.ValueSurvives | adapter_csv.py:196-208 | The value exported is the one written exactly when it has no sign. |
| PerfdataFormat.QuoteInHeader | adapter_csv.py:200-205 | A metric with and without quotes around its label is exported alike exactly when the value has no unit. |
| PerfdataFormat.CommaInTail | adapter_csv.py:122-122 | What follows a comma in the thresholds is exported as another metric. |
| PerfdataFormat.ExamplesLost | adapter_csv.py:103-208 | 'DHCP Leases'=3 gives the header LEASES, 'used'=5% one with a closing quote, and t=-5 the value 5. |
| AdapterCsv.AdapterCSV.constructor | adapter_csv.py:68-77 | The table of return codes inverts the status table; the adapter starts with status UNKNOWN. |
| AdapterCsv.AdapterCSV.SetStatus | adapter_csv.py:129-143 | A known code becomes its name, a known name stays, anything else becomes UNKNOWN. |
| AdapterCsv.AdapterCSV.ProcessMessage | adapter_csv.py:109-123 | The message is the cleaned text after removal of the status prefix. |
| AdapterCsv.AdapterCSV.ProcessPerfdata | adapter_csv.py:186-213 | Headers and values grow in lockstep, one pair for each item that becomes a column; the message is the trimmed part before the first bar, and holds none. |
| AdapterCsv.AdapterCSV.Row | adapter_csv.py:216-218 | Appending the values one by one gives the fields joined by commas. |
| AdapterCsv.AdapterCSV.Run | adapter_csv.py:94-106 | The row splits at commas into status, message and values, the header line into the headers, as many as the fields, and no line holds a line break. |
| AdapterCsv.CsvDecodes | adapter_csv.py:109-221 | For every plugin output the row decodes to exactly the fields it was made of. |
| AdapterCsv.HeadersDecode | adapter_csv.py:186-220 | For every plugin output the header line decodes to the headers. |
| AdapterGeneos.BasenameIs | adapter_geneos.py:70-70 | The name in the first column is the part after the last slash. |
| AdapterGeneos.AdapterGeneos.Output | adapter_geneos.py:68-76 | Header line and row with the command's base name in front; no result for a blank command line. |
| AdapterGeneos.AdapterGeneos.Run | adapter_geneos.py:68-76 | The row has one field for every header, and decodes to them, exactly when the command's name holds no comma. |
| AdapterGeneos.GeneosDecodes | adapter_geneos.py:60-76 | The same for every plugin output, name and status. |
| AdapterCheckMk.AdapterCheckMK.ProcessOptions | adapter_check_mk.py:84-98 | The name is the given one or that of the first argument that can name the check, with white space replaced by underscores; it is never empty. |
| AdapterCheckMk.AdapterCheckMK.PassedOver | adapter_check_mk.py:84-98 | Passed over are arguments whose base name is empty, an option, an interpreter, a status or a number; the one taken is none of these. |
| AdapterCheckMk.InterpreterIs | adapter_check_mk.py:102-106 | An interpreter is one of five names with anything after it. |
| AdapterCheckMk.SquashAtSpace | adapter_check_mk.py:97-97 | A run of white space becomes one underscore, and the rest is kept. |
| AdapterCheckMk.AdapterCheckMK.Output | adapter_check_mk.py:108-121 | The accumulated perfdata with its last bar stripped, or a dash, between name and message. |
| AdapterCheckMk.LineIs | adapter_check_mk.py:116-121 | The line is status, name, perfdata and message with a space between. |
| AdapterCheckMk.PerfFieldIsJoin | adapter_check_mk.py:110-113 | Stripping bars drops the last separator and nothing else. |
| AdapterCheckMk.PerfReads | adapter_check_mk.py:109-115 | The perfdata field is a dash exactly when there is no perfdata, and reads back to the pairs exactly when no key holds a bar. |
| AdapterCheckMk.NoFurtherBar | adapter_csv.py:188-189 | When the perfdata section holds no further bar, no header does. |
| AdapterCheckMk.CheckMkDecodes | adapter_check_mk.py:108-121 | For every plugin output the line is a single line whose status, name, perfdata and message read back at the first three spaces. |
| AdapterCheckMk.AdapterCheckMK.Run | adapter_check_mk.py:108-121 | The same for a run with a given exit code and text. |
| Text.IntTextInjective | adapter_check_mk.py:117-117 | The exit code is known from its text. |
| HBaseProbe.CheckHBaseWriteSpray.CheckRead | check_hbase_cell.py:196-232 | The outcome for every reply of the server; timing and value change only on success, to the reply's. |
| HBaseProbe.CheckHBaseWriteSpray.CheckWrite | check_hbase_write.py:163-171 | The put as the server applied it, and the running maximum of its time. |
| HBaseProbe.CheckHBaseWriteSpray.CheckDelete | check_hbase_write.py:173-181 | The delete as the server applied it, and the running maximum of its time. |
| HBaseProbe.ReadOutcomeIs | check_hbase_cell.py:208-228 | UNKNOWN exactly for no list or several cells, success exactly for one cell that pattern and expected value accept. |
| HBaseProbe.AttemptOutcomeIs | check_hbase_write_spray.py:128-132 | A probe succeeds exactly when its three calls do, and is UNKNOWN exactly when the read is, after a put that succeeded. |
| HBaseProbe.ProbeInRegion | check_hbase_write_spray.py:128-129 | The row of a probe begins with the start key of its region, is not before it and ends in the probe's own row; its column is in the family. |
| HBaseProbe.ProbesReach | check_hbase_write_spray.py:102-129 | Every region of every family has a probe cell, and every probe cell is in one. |
| HBaseProbe.CheckHBaseWriteSpray.CheckRegion | check_hbase_write_spray.py:128-132 | Success exactly when put, read-back and delete succeed, and then the probe cell has held the value; it lies in the region and family; it stays behind exactly when the probe ends after an applied put without an applied delete; the value is unchanged. |
| HBaseProbe.CheckHBaseWriteSpray.CheckFamily | check_hbase_write_spray.py:104-105 | All regions of a family: every content passed through is safe, and an early end leaves what its last probe leaves. |
| HBaseProbe.CheckHBaseWriteSpray.CheckTable | check_hbase_write_spray.py:88-105 | Whatever the calls give: success exactly when every probe succeeds, and then every probe cell has held the value; every content passed through differs in at most one added probe cell, a completed spray removes only probe cells, and all timings are maxima. A call that returns has been applied. |
| HBaseProbe.CheckHBaseWriteSpray.CheckTableWrite | check_hbase_write.py:149-161 | The same for the single row of the write check, with the same conditions for success and for what an early end leaves. |
| HBaseProbe.CheckHBaseWriteSpray.Output | check_hbase_write_spray.py:148-152 | With complete timings no look-up of a time is missing. |
| HBaseProbe.SafeWhenAbsent | check_hbase_write_spray.py:128-132 | If the probe cells are absent at first, a safe content is the first one but for a single probe cell. |
| HBaseProbe.PeakIsMaximum | check_hbase_write.py:170-170 | The running maximum is an upper bound of all durations and is attained. |
| HBaseProbe.SprayPeaks | check_hbase_write.py:169-180 | After a spray every stored time is the maximum of its action over all regions. |
| HBaseProbe.SprayComplete | check_hbase_write_spray.py:148-152 | After a spray every column has its write, read and delete time. |
| HBaseProbe.ProbeCount | check_hbase_write_spray.py:102-129 | There are as many probe cells as families times regions exactly when the start keys are distinct (or there is no family). |
| RackTopology.GroupHosts | check_ambari_cluster_hdfs_rack_resilience.py:102-108 | The dictionary of the list of hosts. |
| RackTopology.GroupedIs | check_ambari_cluster_hdfs_rack_resilience.py:102-108 | A rack is listed exactly when it has a host, with all its hosts in order. |
| RackTopology.GetRackInfo | check_hadoop_hdfs_rack_resilience.py:90-123 | For every output of the command, the error raised or the grouping of the hosts on node lines under the rack line above them. |
| RackTopology.ErrorsAre | check_hadoop_hdfs_rack_resilience.py:88-122 | Which error is raised: for a failed command, for a line that is neither empty nor a node line after a rack line, and for no rack line. |
| RackTopology.RackLineIsPreferred | check_hadoop_hdfs_rack_resilience.py:78-78 | The rack found on a line is the group of the match that a backtracking search prefers, and none is found exactly when the pattern does not match. |
| RackTopology.NodeNameReads | check_hadoop_hdfs_rack_resilience.py:79-79 | A line that the node pattern matches gives its host, for any address and host patterns without white space. |
| RackTopology.NodeNameOnly | check_hadoop_hdfs_rack_resilience.py:79-79 | A line that gives a host is matched by the node pattern with that host. |
| RackTopology.ScanTopology | check_hadoop_hdfs_rack_resilience.py:94-123 | Scanning a printed topology after any noise finds the hosts of all node lines the pattern accepts, tagged with their racks. |
| RackTopology.Summarize | check_hadoop_hdfs_rack_resilience.py:125-136 | For racks grouped from any list of hosts: a warning exactly when there are not two hosts on different racks or some host is on the default rack, the number of racks with a host, and the number of hosts on the default rack. |
| RackTopology.GroupedAnyOrder | check_ambari_cluster_hdfs_rack_resilience.py:102-118 | The order of the hosts changes neither the racks nor the report. |
| RackTopology.TotalHosts | check_ambari_cluster_hdfs_rack_resilience.py:102-108 | No host is lost or counted twice. |
| RackTopology.ParserAgreesWithGrouping | check_hadoop_hdfs_rack_resilience.py:94-136 | For any noise and sections, and the same hosts in any order, the parser and the grouping give the same racks and the same report, and the racks hold all hosts. |
| YarnQueues.CheckQueueApps | check_hadoop_yarn_queue_apps.py:150-175 | The counters of all categories and the number of matching applications; disallowed are the matching names the disallow test accepts, not allowed the others that the allow test given does not, allowed the rest; a warning exactly when one is of the first two kinds. |
| YarnQueues.CategoriesAre | check_hadoop_yarn_queue_apps.py:160-175 | Who is in which category, in terms of the two tests. |
| YarnQueues.WarningIs | check_hadoop_yarn_queue_apps.py:160-167 | There is a disallowed or not allowed application exactly when some matching name is disallowed, or fails the test for allowed names. |
| YarnQueues.TallyIs | check_hadoop_yarn_queue_apps.py:164-165 | A queue's counter is its number of applications; the total counts those on a queue called total twice. |
| YarnQueues.TotalIsSum | check_hadoop_yarn_queue_apps.py:163-174 | A category's total is the sum of its queues exactly when no application is on a queue called total. |
| YarnQueues.TotalCollision | check_hadoop_yarn_queue_apps.py:173-174 | One application on a queue called total gives a total of two. |
| YarnQueues.TotalsConserved | check_hadoop_yarn_queue_apps.py:150-183 | The three totals add up to the matching applications exactly when none of them is on a queue called total. |
| YarnQueues.WarningIsTotal | check_hadoop_yarn_queue_apps.py:161-170 | The warning is raised exactly when the first two totals are not both zero. |
| YarnQueues.MatchingQueuesCount | check_hadoop_yarn_queue_apps.py:177-181 | The number printed is that of the matching queues, less one for a queue called total, plus one for each further category of another queue; and exactly when it is right, with and without a queue of that name. |
| YarnQueues.TotalNotShown | check_hadoop_yarn_queue_apps.py:177-180 | One application on a queue called total: no matching queue is shown. |
| YarnQueues.SharedShownTwice | check_hadoop_yarn_queue_apps.py:177-180 | Two applications on one queue in two categories: two matching queues are shown. |
| YarnTable.ThousandthIsShorter | check_hadoop_yarn_queue_apps.py:238-241 | An elapsed time is never longer in seconds than in the milliseconds it was measured in. |
| YarnTable.PaddedIs | check_hadoop_yarn_queue_apps.py:242-242 | A cell is its value with spaces after a text or before a number up to the width, never cut. |
| YarnTable.ShownIs | check_hadoop_yarn_queue_apps.py:237-241 | An elapsed time is shown in whole seconds, rounded towards zero; other values as they are. |
| YarnTable.LineIs | check_hadoop_yarn_queue_apps.py:227-243 | The columns of a line in their order. |
| YarnTable.WidthIsMaximum | check_hadoop_yarn_queue_apps.py:216-225 | A column is exactly as wide as its longest heading or value. |
| YarnTable.PrintApps | check_hadoop_yarn_queue_apps.py:205-243 | Every line printed has the total width, and printing ends early exactly when an elapsed time is not an integer. |
| Balance.CheckHBaseTableRegionBalance.ProcessTable | check_hbase_table_region_balance.py:143-157 | The counts after one more table, every region counted for the server it names, or the failure for a table without regions or a region without server. |
| Balance.CheckHBaseTableRegionBalance.ProcessTables | check_hbase_table_region_balance.py:120-157 | The counts over all tables, for every server the number of its regions, or a failure exactly when some table is without regions or holds a region without server. |
| Balance.CheckHBaseTableRegionBalance.CalculateImbalance | check_hbase_table_region_balance.py:159-170 | In any order of the servers, the scan ends with the true minimum and maximum, held by the servers it names. |
| Balance.RegionsConserved | check_hbase_table_region_balance.py:143-153 | The counts of all servers add up to the regions of all tables. |
| Balance.AllRegionsCounted | check_hbase_table_region_balance.py:150-153 | A server's count is the number of its regions over all tables, and it is listed exactly when it has one. |
| Balance.RegionImbalance | check_hbase_table_region_balance.py:168-169 | Among servers with regions the imbalance is at least 0 and below 100, and 0 exactly when all have the same count. |
| Balance.IdleServers | check_hbase_table_region_balance.py:150-169 | Over all servers the imbalance is the one reported exactly when every server holds a region; otherwise it is 100. |
| Balance.SpaceImbalance | check_hadoop_hdfs_balance.py:82-111 | True minimum and maximum (at least 0) in any order; an error exactly without datanodes or with a value that is no integer, never for a maximum below the minimum. |
| Balance.SpaceImbalanceBounds | check_hadoop_hdfs_balance.py:103-111 | The imbalance is never negative, 0 exactly when all values are equal and not negative, and at most 100 but for negative values. |
| Balance.BlockImbalance | check_hadoop_datanodes_block_balance.py:79-108 | The same scan, with the imbalance relative to the minimum. |
| Balance.MeasuresAgree | check_hadoop_datanodes_block_balance.py:104-108 | With a positive minimum, one plus the imbalance above the minimum times one minus the imbalance below the maximum is one. |
| Balance.PercentageOf | check_hadoop_datanodes_block_balance.py:104-108 | The percentages: the difference in hundredths of the maximum or minimum, or of 1 when that is smaller. |

## Left out

- Network, subprocess, file, signal and exit handling: text, records and the server's
  replies are inputs, and an exit with an error is a failing result.
- Command line parsing, default values for missing options, the timeout and the log.
- The four patterns by which a lease file is recognised: the text given to the tester is
  taken to be one.
- Upper: letters outside ASCII keep their case, and only ASCII digits are digits; Python's
  case mapping and digit class cover more.
- ProcessMessage: the removal of the status prefix is an arbitrary function of the text,
  so the results hold for any such removal.
- NodeNameReads: the address and host patterns inside the pattern for node lines are
  arbitrary tests that accept no white space, because they are not part of this model.
- CheckQueueApps: the regular expressions of the options are arbitrary tests on a text.
- RoundTrip: gap lines, other lines, states and MACs hold no stray marker of another
  kind (lines with the next or the rewind state are a kind of their own), and no field
  holds a closing brace; client names are any texts without markers or line breaks.
- PerfdataRoundTrip: labels hold no equals sign, and their last word has no quote at its
  ends; thresholds hold no comma, for which see CommaInTail.
- TestLeases: one run of a fresh tester, as the program makes it; a second run stops in
  the original, which then finds lists where it expects text.
- FormatLeases: the sort of keys and the iteration over dictionaries are in Python's
  order only where the order shows; elsewhere any order is allowed.
- CheckTable: a put or delete that returns has been applied; a server that acknowledges a
  delete without applying it leaves the cell behind. A cell holds one value, so the
  versions and timestamps of HBase cells are not modelled, and neither are thresholds and
  the text of the report.
- Thousandth: the division of elapsed times is exact, where the original goes through a
  floating point number.
- SpaceImbalance: rounding to two decimals, thresholds and the messages of the three
  balance checks.
- PrintApps: the part of a line printed before an elapsed time that is not an integer, and
  fields that are missing or neither text nor integer.
- The per-queue figures of the verbose YARN message, which add key views and fail on
  Python 3.
- Inheritance: the subclasses of the adapters hold an adapter, and the write check is the
  spray with one region of empty start key.
- All plugins that query one value and compare it, and those in other languages.
