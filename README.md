# OpenDNSSEC signer cmocka test harness, modelled in Dafny

This project models the sequential core of the cmocka test harness of the
OpenDNSSEC signer. It also models the behaviour of the signer that those tests
pin down. The parts modelled are:

- **Serial arithmetic** (`serial_arith.dfy`):
  - the reference adder and comparator that both serial test suites carry, after sections 3.1 and 3.2 of RFC 1982;
  - the signer's `util_serial_gt`, defined by its signed-difference rule and proved to agree with the reference wherever the reference is defined;
  - on the undefined half-range pairs, `util_serial_gt` answers false in both directions.
- **SOA serial policy** (`serial_policy.dfy`): `namedb_update_serial` as a pure function over the serial fields of a zone, plus a class that updates those fields in place. The function is the policy the unit and end-to-end tests pin down; where no test decides a case, the model completes it, and "## Left out" names those cases. The contract covers:
  - the `counter`, `keep`, `unixtime` and `datecounter` modes;
  - forced serials;
  - the conflict case;
  - the warnings.

  Every scenario the unit and end-to-end tests check is a proved lemma.
- **The datecounter end-to-end test** (`e2e_serial.dfy`):
  - the expectation queue that `datecounter_serial_common` builds with its nested loops;
  - a replay of that queue against the policy, which proves that every serial the test expects is the one published;
  - the proved task order.
- **Template substitution** (`template.dfy`): `with_splits`, the two callbacks and `from_template`.
  - The size pass and the fill pass are proved against a character-level reference expansion.
  - The fill pass writes into a zeroed array.
- **Command-line helpers** (`cmdline.dfy`): `get_cmdlinearg`, with its loose prefix match of keys; `is_cmdlineflag_set`; and `register_test`.
- **Logging mocks** (`mock_logging.dfy`):
  - the log-level filter and its substring test;
  - the run and skip test filters;
  - the level mapping of the logger callback;
  - `check_contains`.
- **Mock key registries** (`mock_keys.dfy`): the framework copy's fixed two-slot table and the signer copy's growing table. Each key's HSM handle carries its own index.
- **HSM mocks** (`mock_hsm.dfy`): lookup by locator and by index, the sign and digest mocks that write into a caller's buffer, and the mock HSM context.
- **End-to-end harness state** (`e2e_harness.dfy`): `e2e_setup`'s HSM context, `e2e_configure_mocks` in both copies, and the queue `e2e_go` builds.

Some files exist in two copies, under `signer/src/test/cmocka/framework/` and `signer/src/signer/test/cmocka/`:

- `get_cmdlinearg` and the logging-mock functions modelled here agree between the copies, so each is modelled once.
- The key registries and `e2e_configure_mocks` differ between the copies, so each is modelled twice.

Conventions:

- A C NULL pointer is `None`.
- A cmocka `fail()`, `fail_msg()` or failed `assert` is an error value (`Err`, `None`), never a crash.
- The clock, the environment variable and generated key material are parameters.

The end-to-end test expects `YYYYMMDD00` for the first sign of a day, so the datecounter candidate is the date times 100.

## Model

| member | source | states |
|---|---|---|
| SerialArith.Rfc1982Increment | signer/src/signer/test/cmocka/namedb_test.c:292-306 | None (the mock assertion fails) exactly for an increment above 2^31-1; otherwise s+n when that stays below 2^32 and s+n-2^32 beyond; adding 0 changes nothing |
| SerialArith.Rfc1982Comparison | signer/src/signer/test/cmocka/namedb_test.c:308-359 | undefined (the mock assertion) exactly for pairs 2^31 apart; 0 exactly for equal serials; otherwise -1 or 1 |
| SerialArith.Rfc1982Gt | signer/src/signer/test/cmocka/namedb_test.c:361-364 | undefined exactly on the half-range pairs |
| SerialArith.UtilSerialGt | signer/src/signer/test/cmocka/namedb_test.c:366-369 | no serial is greater than itself, and at a half-range pair util_serial_gt is false |
| SerialArith.UtilSerialGtWindow | signer/src/signer/test/cmocka/namedb_test.c:652-664 | util_serial_gt(a, b) holds iff a lies 1 to 2^31-1 steps ahead of b modulo 2^32 |
| SerialArith.ComparisonAntisymmetric | signer/src/signer/test/cmocka/namedb_test.c:308-359 | away from the half-range pairs both orders are defined and swapping the arguments negates the result |
| SerialArith.ComparisonTrichotomy | signer/src/test/cmocka/tests/poc_namedb_update_serial_test.c:62-113 | away from the half-range pairs exactly one of equal, greater, less holds |
| SerialArith.UtilSerialGtAgreesWithReference | signer/src/signer/test/cmocka/namedb_test.c:366-369 | on every pair the reference defines, util_serial_gt gives the reference's answer |
| SerialArith.UtilSerialGtHalfRange | signer/src/signer/test/cmocka/namedb_test.c:666-693 | on pairs 2^31 apart util_serial_gt is false in both orders while the reference asserts in both |
| SerialArith.IncrementIsGreater | signer/src/test/cmocka/tests/poc_namedb_update_serial_test.c:46-60 | adding 1 to 2^31-1 yields a serial greater than the original by the reference and by util_serial_gt |
| SerialArith.SerialGtExamples | signer/src/test/cmocka/tests/poc_namedb_update_serial_test.c:256-267 | on each example pair of test_serial_gt, util_serial_gt equals the reference, with the expected truth value |
| SerialArith.SerialGtIncomparable | signer/src/signer/test/cmocka/namedb_test.c:666-693 | the two loops of the test pass iff every table pair is false in both orders and the reference asserts in both |
| SerialArith.IncomparableTablesAreHalfRange | signer/src/test/cmocka/tests/poc_namedb_update_serial_test.c:269-295 | every check of test_serial_gt_incomparable holds on its tables |
| SerialPolicy.NextSerial | signer/src/signer/test/cmocka/namedb_test.c:521-579 | a conflict leaves the database unchanged and logs the keep error; success changes only intserial and clears the force flag, logging at most one warning |
| SerialPolicy.CommitsCandidate | signer/src/signer/test/cmocka/namedb_test.c:521-650 | the update succeeds iff a candidate is chosen; the committed serial is that candidate and is greater than the previous serial by util_serial_gt and by the reference |
| SerialPolicy.ConflictExactly | signer/src/signer/test/cmocka/namedb_test.c:541-579 | the update fails iff the mode is keep, no serial is forced and the inbound serial does not follow the outbound one |
| SerialPolicy.KeepKeepsInbound | signer/src/signer/test/cmocka/namedb_test.c:541-559 | keep publishes an inbound serial that follows the outbound one unchanged and silently |
| SerialPolicy.ForcedSerial | signer/src/signer/test/cmocka/namedb_test.c:710-742 | a forced serial is used when it follows the previous one, else previous+1 with the enforce warning; the force flag is cleared |
| SerialPolicy.ClockModes | signer/src/signer/test/cmocka/namedb_test.c:581-650 | unixtime and datecounter take the clock's serial when it follows the previous one, else previous+1, warning only on a zone's first serial |
| SerialPolicy.CounterAndKeepScenarios | signer/src/test/cmocka/tests/poc_namedb_update_serial_test.c:131-186 | counter from 0 gives 1; keep accepts intserial+1 and rejects intserial with the error log |
| SerialPolicy.UnixtimeScenarios | signer/src/test/cmocka/tests/poc_namedb_update_serial_test.c:188-254 | with the clock at 1234, inbound 1235, 1234 and 1233 give 1236, 1235 and 1234 |
| SerialPolicy.FreshZoneFallbackScenarios | signer/src/signer/test/cmocka/namedb_test.c:695-742 | a clock behind the inbound serial warns, a forced 4 over inbound 2 is silent, a forced 1 warns |
| SerialPolicy.ZoneDb.UpdateSerial | signer/src/signer/test/cmocka/namedb_test.c:521-539 | the in-place update returns the status and log lines of NextSerial and leaves the fields equal to its database |
| E2eSerial.AssertUint32PtrEqual | signer/src/test/cmocka/tests/poc_e2e_test.c:64-75 | passes iff both pointers are NULL or both point at equal values |
| E2eSerial.SafeGetOutboundSerial | signer/src/test/cmocka/tests/poc_e2e_test.c:100-108 | fails iff the outbound serial is absent, otherwise returns it |
| E2eSerial.InitialZoneSerialValue | signer/src/test/cmocka/tests/poc_e2e_test.c:208-209 | the input zone's serial text is all digits and reads as 20180101 |
| E2eSerial.YmdnStringValue | signer/src/test/cmocka/tests/poc_e2e_test.c:203 | the ten-digit datecounter text reads back as y*10^6 + m*10^4 + d*100 + n |
| E2eSerial.YmdnString | signer/src/test/cmocka/tests/poc_e2e_test.c:203 | the datecounter text is exactly ten decimal digits |
| E2eSerial.YmdnStringFields | signer/src/test/cmocka/tests/poc_e2e_test.c:203 | the datecounter text is the four-digit year followed by the two-digit month, day and counter |
| E2eSerial.CycleGuard | signer/src/test/cmocka/tests/poc_e2e_test.c:233 | the hour loop runs for exactly the first NumCycles(hInc) counter values |
| E2eSerial.DatecounterSerialCommon | signer/src/test/cmocka/tests/poc_e2e_test.c:206-256 | the nested loops queue exactly the expectation plan of the month |
| E2eSerial.FirstSign | signer/src/test/cmocka/tests/poc_e2e_test.c:222-228 | the start queues the first cycle of 2019-01-01, with the serial 2019010100, which is also the serial the first re-read of day 2 installs |
| E2eSerial.DayLoop | signer/src/test/cmocka/tests/poc_e2e_test.c:233-251 | the hour loop of one day queues exactly that day's cycles and leaves the last serial of the day as the next inbound serial |
| E2eSerial.NewDaySerial | signer/src/test/cmocka/tests/poc_e2e_test.c:232-251 | the first sign of a new day yields YYYYMMDD00 from the previous day's serial, silently |
| E2eSerial.SameDaySerial | signer/src/test/cmocka/tests/poc_e2e_test.c:233-250 | a later sign on the same day yields the previous serial + 1 |
| E2eSerial.FirstCyclePublishes | signer/src/test/cmocka/tests/poc_e2e_test.c:206-228 | the first cycle signs the 2018 zone on 2019-01-01 and publishes 2019010100 |
| E2eSerial.CyclePublishes | signer/src/test/cmocka/tests/poc_e2e_test.c:232-251 | each later cycle publishes the serial the test expects for its day and counter |
| E2eSerial.DayCyclesPublish | signer/src/test/cmocka/tests/poc_e2e_test.c:233-250 | the first k cycles of a day publish YYYYMMDD(k-1) |
| E2eSerial.DaysPublish | signer/src/test/cmocka/tests/poc_e2e_test.c:231-252 | after the first cycle has published 2019010100, playing the cycles of the days before a day publishes the last serial before that day |
| E2eSerial.DatecounterPlanPasses | signer/src/test/cmocka/tests/poc_e2e_test.c:206-256 | replaying the whole queue meets every expectation and ends on the last counter value of 31 January |
| E2eSerial.DatecounterTests | signer/src/test/cmocka/tests/poc_e2e_test.c:258-264 | the 24-hour test ends on 2019013100 and the 12-hour test on 2019013101 |
| E2eSerial.FirstCycleTasks | signer/src/test/cmocka/tests/poc_e2e_test.c:225-227 | the first cycle expects READ, SIGN, WRITE |
| E2eSerial.CycleTasks | signer/src/test/cmocka/tests/poc_e2e_test.c:246-248 | each later cycle expects FORCEREAD, SIGN, WRITE |
| E2eSerial.PlanTaskOrder | signer/src/test/cmocka/tests/poc_e2e_test.c:225-247 | the task order is READ, SIGN, WRITE, then FORCEREAD, SIGN, WRITE once per sign on each of the 30 later days |
| Template.WithSplits | signer/src/test/cmocka/framework/strings.c:16-27 | the calls are numbered 0, 1, 2, ...; each fragment is free of delimiters and ends at one; the next starts just after it; a final call has no match; one call per delimiter plus one |
| Template.ExpandOverCall | signer/src/test/cmocka/framework/strings.c:41-53 | a '<' is valid only at an even call and a '>' only at an odd one; a call's fragment maps onto the reference expansion |
| Template.RequiredSize | signer/src/test/cmocka/framework/strings.c:34-57 | the size pass totals exactly the length of the reference expansion, and fails where it fails |
| Template.ReplacePlaceholdersStep | signer/src/test/cmocka/framework/strings.c:64-80 | at '<' the fragment then the replacement are written and the cursor advances past both; at the end the rest and a NUL are written; at '>' nothing changes |
| Template.ReplacePlaceholders | signer/src/test/cmocka/framework/strings.c:64-80 | the fill pass leaves the buffer holding the expansion followed by NUL |
| Template.FromTemplate | signer/src/test/cmocka/framework/strings.c:86-97 | as written: the result is the expansion of the template from its second character, NUL-terminated, and absent exactly when that expansion fails |
| Template.FromTemplateCorrected | signer/src/test/cmocka/framework/strings.c:86-97 | scanning from the first character, the result is the whole template's expansion, NUL-terminated |
| Template.ExpandPlainText | signer/src/test/cmocka/framework/strings.c:67-69 | a template without delimiters expands to itself |
| Template.ExpandOnePlaceholder | signer/src/test/cmocka/framework/strings.c:82-97 | text, one placeholder and text expand to the text, the first replacement and the text |
| Template.FirstCharacterDropped | signer/src/test/cmocka/framework/strings.c:20-23 | a non-delimiter first character is missing from the as-written result; a template starting with a placeholder makes the as-written version fail |
| Template.FirstCharacterDroppedExamples | signer/src/test/cmocka/framework/strings.c:20-23 | "ab" gives "b" as written and "ab" intended; "<A>" with "x" fails as written and gives "x" intended |
| Cmdline.FirstMatch | signer/src/test/cmocka/framework/main.c:49-62 | the index of the first argv entry that answers the lookup; no earlier entry answers |
| Cmdline.GetCmdlineArg | signer/src/test/cmocka/framework/main.c:46-64 | the default when no entry matches, otherwise the answer of the first matching entry |
| Cmdline.ValueEntryMatchesKeyPrefix | signer/src/test/cmocka/framework/main.c:51-55 | in value mode an entry matches iff it has a '=' and its key is a prefix of the needle |
| Cmdline.KeyValueEntry | signer/src/signer/test/cmocka/main.c:48-56 | `key=value` with a '='-free key matches `key` and yields `value` |
| Cmdline.ValueLookupQuirks | signer/src/signer/test/cmocka/main.c:52-53 | "--lo=x" and "=x" answer a lookup of "--log" with "x"; an entry without '=' is skipped |
| Cmdline.FlagLookupIffPresent | signer/src/signer/test/cmocka/main.c:44-62 | in flag mode the lookup answers iff the needle is an entry, and answers with the needle |
| Cmdline.IsCmdlineFlagSet | signer/src/test/cmocka/framework/main.c:35-37 | set iff the long or the short flag is an entry |
| Cmdline.TestRegistry.RegisterTest | signer/src/test/cmocka/framework/main.c:72-76 | the table grows by one slot holding the test, earlier entries unchanged, count + 1 |
| MockLogging.GetGeLogLevels | signer/src/test/cmocka/framework/mock_logging.c:67-75 | "all" gives the whole list; a level not in the list gives ""; otherwise the list's tail from the first occurrence of the level |
| MockLogging.Enabled | signer/src/test/cmocka/framework/mock_logging.c:77-80 | a level is enabled under a filter iff its name occurs in the filter text |
| MockLogging.LevelsJoined | signer/src/test/cmocka/framework/mock_logging.c:33 | the level list is the nine level names, lowest first, separated by commas |
| MockLogging.LevelFilterOrder | signer/src/test/cmocka/framework/mock_logging.c:67-80 | for any two level names, the filter the first selects enables the second exactly when the second is the same level or a higher one |
| MockLogging.DefaultGeLogLevels | signer/src/test/cmocka/framework/mock_logging.c:32-33 | the default level selects "warning,error,crit,fatal" |
| MockLogging.DefaultLevelFilterBelow | signer/src/test/cmocka/framework/mock_logging.c:77-80 | under the default filter mock, deeebug, debug, verbose and info are disabled |
| MockLogging.DefaultLevelFilterAbove | signer/src/test/cmocka/framework/mock_logging.c:77-80 | under the default filter warning, error, crit and fatal are enabled |
| MockLogging.InitialFilterEnablesNoLevel | signer/src/test/cmocka/framework/mock_logging.c:64 | before a level is set the filter "all" enables no level name |
| MockLogging.LevelName | signer/src/test/cmocka/framework/mock_logging.c:87-94 | every logger level maps to one of the known level names |
| MockLogging.DefaultLevelPrintsCheckedLevels | signer/src/test/cmocka/framework/mock_logging.c:83-97 | under the default level the callback prints exactly the messages it checks |
| MockLogging.CheckContains | signer/src/signer/test/cmocka/mock_logging.c:125-136 | 1 iff the expected fragment occurs in the logged format, else 0 |
| MockLogging.MockLogger.SetLoggingLevel | signer/src/test/cmocka/framework/mock_logging.c:99-109 | the filter comes from the argument, else the environment, else "warning"; the test filters are untouched |
| MockLogging.MockLogger.LogLevelEnabled | signer/src/test/cmocka/framework/mock_logging.c:77-80 | true iff the level name occurs in the current `log_filter` |
| MockLogging.MockLogger.SetFilteredTests | signer/src/test/cmocka/framework/mock_logging.c:111-123 | a leading '-' sets the skip filter to the rest, any other filter the run filter, NULL nothing |
| MockLogging.MockLogger.MockLoggerProc | signer/src/test/cmocka/framework/mock_logging.c:83-97 | prints iff the level name is enabled; checks the format exactly for fatal, error and warning; always continues |
| MockKeys.NewMockKey | signer/src/test/cmocka/framework/test_framework.c:63-71 | the new entry has the locator, a DNSKEY owned by the apex, and a handle naming MOCK_MODULE whose private key is the index |
| MockKeys.NewKeyConfig | signer/src/test/cmocka/framework/test_framework.c:73-81 | the pushed configuration is RSA/SHA-256, a zone key, published, with the given KSK and ZSK roles |
| MockKeys.FixedKeyRegistry.PrepareForKeys | signer/src/test/cmocka/framework/test_framework.c:42-45 | a fresh zeroed table of exactly two slots, whatever is asked for, not released; the count is unchanged |
| MockKeys.FixedKeyRegistry.InitMockKey | signer/src/test/cmocka/framework/test_framework.c:57-82 | needs a free slot in a table not released; the slot at the old count gets the new entry, the count grows by one, the index invariant holds, the configuration is appended |
| MockKeys.FixedKeyRegistry.Teardown | signer/src/test/cmocka/framework/test_framework.c:93-110 | the table is released and the count returns to 0 |
| MockKeys.GrowingKeyRegistry.InitMockKey | signer/src/signer/test/cmocka/test_framework.c:51-77 | the table grows by exactly one entry at index count-1, whose handle holds that index; the configuration is appended |
| MockKeys.GrowingKeyRegistry.Teardown | signer/src/signer/test/cmocka/test_framework.c:89-98 | the table is released and the count returns to 0 |
| MockHsm.FirstWithLocator | signer/src/test/cmocka/framework/mock_hsm.c:82-86 | the index of the first entry with the locator; no earlier entry has it |
| MockHsm.KeycacheLookup | signer/src/test/cmocka/framework/mock_hsm.c:79-88 | the handle of the first entry with the locator, or a failure naming the locator |
| MockHsm.HsmGetDnskey | signer/src/test/cmocka/framework/mock_hsm.c:113-126 | an index at or past the count fails with index and count; otherwise the record of that entry |
| MockHsm.LookupThenGetDnskey | signer/src/test/cmocka/framework/mock_hsm.c:79-126 | a key whose locator no earlier key shares is found by locator, and its handle leads back to its own DNSKEY |
| MockHsm.LookupResolves | signer/src/test/cmocka/framework/mock_hsm.c:79-126 | every handle the lookup hands out has a DNSKEY, and that record belongs to an entry with the looked-up locator |
| MockHsm.MockCDigest | signer/src/test/cmocka/framework/mock_hsm.c:51-58 | the 8 bytes D,E,A,D,B,E,E,F fill the front of the buffer, the rest is untouched, the length is 8, CKR_OK |
| MockHsm.MockCSign | signer/src/test/cmocka/framework/mock_hsm.c:63-71 | the same 8 bytes as signature, rest untouched, length 8, CKR_OK |
| MockHsm.SetupMockHsm | signer/src/test/cmocka/framework/mock_hsm.c:133-154 | a new context with one session, handle 0, module MOCK_MODULE, symbol table pointing at the four mocks |
| E2eHarness.TasksBeforeStop | signer/src/test/cmocka/framework/test_framework.c:128-130 | the task ids before the first TASK_STOP: all non-stop, followed by a stop |
| E2eHarness.TasksBeforeStopOfRun | signer/src/test/cmocka/framework/test_framework.c:122-131 | for a run of task ids followed by TASK_STOP, the ids queued are exactly that run |
| E2eHarness.E2eGo | signer/src/test/cmocka/framework/test_framework.c:122-139 | queues the task ids before the first TASK_STOP in order, then TASK_STOP, then the worker |
| E2eHarness.E2eState.constructor | signer/src/test/cmocka/framework/test_framework.c:84-91 | the state holds a fresh mock HSM context with one MOCK_MODULE session, nothing armed |
| E2eHarness.E2eState.ConfigureMockHsm | signer/src/test/cmocka/framework/mock_hsm.c:38-41 | every later context creation answers with the state's context |
| E2eHarness.E2eState.HsmCreateContext | signer/src/test/cmocka/framework/mock_hsm.c:98-102 | answers the armed context, if any |
| E2eHarness.E2eState.ConfigureMocksFramework | signer/src/test/cmocka/framework/test_framework.c:112-120 | the task id is not handed on; the HSM mock is armed with the state's context |
| E2eHarness.E2eState.ConfigureMocksSigner | signer/src/signer/test/cmocka/test_framework.c:100-108 | the worker's task gets the task id; the HSM mock is armed with the state's context |

## Left out

- The body of `namedb_update_serial` is not part of this model. SerialPolicy.NextSerial is the policy the tests pin down, completed where no test decides, and each scenario the tests check is proved of it.
- SerialPolicy.NextSerial: every `counter` and `keep` test sets `have_serial`, so three parts of the policy are a completion that no test decides: `keep` mode for a zone without `have_serial`; in `counter` mode, the fallback to `prev + 1` and the conflict branch for a zone without `have_serial` (unreachable, see SerialPolicy.ConflictExactly); and the clamp of the step from `prev` to 0x7FFFFFFF (it never fires, see SerialPolicy.CommitsCandidate).
- SerialPolicy.ConflictExactly: for a zone without `have_serial` it states that `keep` mode fails whenever the inbound serial does not follow `outserial`. No test decides that case; the tests behind the row all set `have_serial`.
- The body of `util_serial_gt` is not part of this model either. It is defined by its signed-difference rule.
- SerialPolicy.NextSerial: the datecounter fallback warning text is assumed by analogy with the unixtime warning, because no test checks it.
- E2eSerial: the zone, adapter and output code that record `have_serial` and the outbound serial are not part of this model. The replay sets them when the WRITE task runs.
- E2eSerial.FirstSign: the statements before the day loop form a method of their own, called by E2eSerial.DatecounterSerialCommon; the queue and the serial are the same.
- E2eSerial.DayLoop: the hour loop returns the day's entries and E2eSerial.DatecounterSerialCommon appends them, where the source appends each entry to the one queue. The resulting queue is the same.
- The mock worker's serial adjustment in `mock_worker.c` is not part of this model.
- Printing is not modelled: `TEST_LOG`, `vfprintf` in the logging wrappers, the test announcements and `print_message`. MockLogging.MockLogger.MockLoggerProc reports only whether it would print.
- The cmocka runtime (`check_expected`, `will_return`, `mock()`, `function_called()`, the test runner and its filters) is represented only by the values handed to it.
- The `__wrap_ods_log_*` wrappers and `__wrap_ods_fatal_exit` of the logging mocks are not modelled. They apply the filter that MockLogging models to each log call.
- `getenv("TESTING_LOG_LEVEL")` is a parameter of MockLogging.MockLogger.SetLoggingLevel.
- `logger_configurecls`, which installs the callback, is not modelled.
- The static one-entry test table of the signer copy of `main.c` and the `main` functions themselves are not modelled.
- Cmdline.StrNCmpSame models `strncmp` on strings without embedded NUL characters. C strings cannot contain one.
- Template.FromTemplate: requires at most twice as many delimiters as replacements. Beyond that, a template whose delimiters alternate correctly makes the source read past the `replacements` array, which is undefined; the excluded templates on which the parity assert of strings.c:50 fires first (a `>` at an even call, for instance) would be a defined failure, and the model does not return `None` for them.
- Template.FromTemplate: requires a non-empty template, because the scan starts one character in.
- Template.RequiredSize: the `int` byte count is unbounded here. Overflow past 2^31-1 is not modelled.
- RSA key generation, DNSKEY record construction and real signing are not modelled. The generated key material is a parameter of the key registries.
- MockHsm.HsmGetDnskey: requires a non-negative private-key index. The mock does not check for a negative one, and reading before the table is undefined.
- MockKeys.GrowingKeyRegistry.Teardown: the signer teardown frees the table but leaves the pointer dangling, so growing it again in a later test is undefined. The model records the release in `released`, and GrowingKeyRegistry.InitMockKey requires that it has not happened. The per-key strings that teardown does not free (a leak) are not modelled.
- MockKeys.FixedKeyRegistry.Teardown: the framework teardown frees the table itself and leaves the pointer dangling. The model records this in `released`, so FixedKeyRegistry.InitMockKey needs PrepareForKeys again after it. Freeing each key's strings and records is not modelled.
- `e2e_get_mock_keys` and `e2e_get_mock_key_count` are plain accessors. They are the registry's `keys` and `count` fields.
- `setup_mock_worker`, `configure_mock_worker`, `teardown_mock_worker` and `worker_start` are not part of this model. E2eHarness.E2eGo returns the queue it builds instead of starting the worker. The input zone passed to the configure methods is not used.
- `teardown_mock_hsm` only releases memory and is not modelled.
- The plain mocks that only return a constant are not modelled beyond the symbol-table entries that name the init mocks: `mock_C_DigestInit`, `mock_C_SignInit`, `__wrap_hsm_open2`, `__wrap_hsm_close`, `__wrap_hsm_check_context`, `__wrap_hsm_destroy_context` and `__wrap_hsm_get_error`.

## Findings

| source | as written | input that shows it | evidently intended | confidence | as-written member | corrected member |
|---|---|---|---|---|---|---|
| signer/src/test/cmocka/framework/strings.c:20-23 | `with_splits` starts its scan at `match_ptr + 1` with `match_ptr` set to the template itself, so the first fragment begins at the second character and the first character is never copied | template "ab" with no replacements gives "b"; template "<A>" with replacement "x" trips the odd-`>` assertion | the whole template is expanded: "ab" gives "ab" and "<A>" gives "x" | not executed | Template.FromTemplate (with Template.FirstCharacterDroppedExamples) | Template.FromTemplateCorrected (with Template.FirstCharacterDropped) |
