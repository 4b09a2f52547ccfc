# getusers: account report core, modelled in Dafny

`getusers.py` lists the accounts of a Linux host as a table. It classifies each
account as system or regular by its UID, marks whether it holds administrative
privilege, and shows its last interactive login. This project models the part of
the script that turns already-loaded text into the table:

- the threshold loop of `init_variables`, which overrides `UID_MIN`, `UID_MAX`,
  `SYS_UID_MIN` and `SYS_UID_MAX` from the tokenised lines of `login.defs`
  (module `Thresholds`, method `GetUsers.Users.InitVariables`);
- the login index `Users.LOGINS`, built from the non-empty rows of the output of
  `last`, and the `get_last_login` lookup (module `Logins`, methods
  `GetUsers.Users.InitVariables` and `GetUsers.Users.GetLastLogin`);
- the privilege check `is_sudo`, which uses the sudoers lines and the `wheel`,
  `admin` and `sudo` group lines (module `Privilege`, method
  `GetUsers.Users.IsSudo`);
- the six report builders `get_system_users` .. `get_all_users_full`. One
  specification function `Reports.Report(thresholds, sources, accounts, mode,
  full)` covers all six, and each builder method on the `Users` class is proved
  equal to it (module `Reports`, class `GetUsers.Users`);
- `get_max_field_length` and the lines that `print_table` prints, without the
  colour codes (module `Table`).

The script keeps its runtime data as class attributes of `Users`. Here they are
the fields of the class `GetUsers.Users`. Each imperative part of the script is
a method with a loop: the defs loop, the LOGINS loop, the three search loops of
`is_sudo`, the search loop of `get_last_login`, the builder loop and the
running maximum. Each method is proved equal to a specification
function, mostly a recursive one; the member loop of `is_sudo` is proved
against membership in the member list. The lemmas about those functions state what the script promises.

The places where the script raises instead of returning are modelled as error
results, not as preconditions:

- a recognised defs key with no value, or a value that is not an integer
  (`Thresholds.DefsError`);
- a `wheel`/`admin`/`sudo` group line with fewer than four `:`-fields
  (`Faults.ShortGroupLine`);
- a matching login row with fewer than seven tokens (`Faults.ShortLoginRow`).

A `wheel`/`admin`/`sudo` line with fewer than four `:`-fields is not skipped:
the `try` at getusers.py:323-326 guards only `fields[0]`, which never fails, and
`fields[3]` at getusers.py:332 raises `IndexError`. The model raises there too.

## Model

| member | source | states |
|---|---|---|
| `Thresholds.KeyOf` | getusers.py:161-172 | a defs token selects a setting exactly when it equals `UID_MIN`, `UID_MAX`, `SYS_UID_MIN` or `SYS_UID_MAX` (case-sensitive), in both directions |
| `Thresholds.ApplyLine` | getusers.py:160-174 | one loop iteration raises exactly when the line names a setting without an integer second token; otherwise it sets that one setting to the value, or changes nothing for any other first token |
| `Thresholds.ApplyDefsAppend` | getusers.py:159-174 | reading `a + b` is reading `a`, then, unless that raised, reading `b` from the settings `a` left |
| `Thresholds.ApplyDefsFails` | getusers.py:159-174 | the defs loop raises iff some line names a setting without an integer value, and then with the error of the first such line |
| `Thresholds.ApplyDefsUnnamed` | getusers.py:159-174 | a setting no line names keeps its starting value (1000/60000/0/999 from the class defaults); lines with other keys never change it |
| `Thresholds.ApplyDefsLast` | getusers.py:159-174 | after a successful read, each setting equals the integer on the last line that names it |
| `GetUsers.ValueOf` | getusers.py:162-171 | `int(fields[1])` for a recognised key raises exactly on a missing or non-integer second token, otherwise yields that line's value |
| `GetUsers.PrefixFails` | getusers.py:159-174 | a malformed line after a cleanly read prefix makes the whole defs read fail with that line's error |
| `GetUsers.Users.constructor` | getusers.py:121-129 | the class attributes start as 1000/60000/0/999 with empty sudoers, group, account and login lists |
| `GetUsers.Users.InitVariables` | getusers.py:147-203 | keeps the group lines, sets the thresholds to the defs read of the old ones, keeps the sudoers lines and accounts, and appends exactly the non-empty `last` rows to LOGINS; a malformed defs line stops it with the settings read so far and nothing after loaded; LOGINS never holds an empty row |
| `GetUsers.Users.ReadDefsLine` | getusers.py:160-174 | one defs line raises exactly when the loop iteration specification raises, with its error and the settings untouched; otherwise the settings become that iteration's result, and the other attributes are untouched |
| `GetUsers.Users.LoadLogins` | getusers.py:195-203 | the `last` loop appends exactly the non-empty rows, in order, and leaves the other attributes alone |
| `Logins.NonEmptyRows` | getusers.py:195-203 | the kept rows are exactly the non-empty rows of the output, and none is empty |
| `Logins.NonEmptyRowsAppend` | getusers.py:195-203 | filtering two outputs in turn keeps the rows in output order |
| `Logins.LastLoginNoMatch` | getusers.py:375-380 | a user with no row in LOGINS gets "None found" |
| `Logins.LastLoginFirstMatch` | getusers.py:375-378 | a user with a row gets tokens 3..6 of the first such row joined by single spaces, or an error if that row is shorter than seven tokens; later rows are ignored |
| `Logins.LoginTextIsNotNoneFound` | getusers.py:377-380 | a reconstructed login text is never the "None found" sentinel |
| `Logins.NoneFoundIff` | getusers.py:364-380 | the lookup answers "None found" exactly when no row belongs to the user |
| `GetUsers.Users.GetLastLogin` | getusers.py:364-380 | the search loop returns what the first-match lookup over LOGINS specifies, error included |
| `Text.StripSpec` | getusers.py:322 | the stripped line has no outer whitespace and occurs in the line with only whitespace before and after it |
| `Text.Split` | getusers.py:322 | splitting yields at least one piece and no piece contains the separator |
| `Text.JoinSplit` | getusers.py:322 | joining the pieces of a split with the separator gives the string back |
| `Text.SplitJoin` | getusers.py:332 | splitting separator-free pieces joined by the separator gives the pieces back |
| `Text.Contains` | getusers.py:318 | `pat in line` holds iff `pat` occurs in `line` at some offset |
| `Text.NatToStringValue` | getusers.py:354 | `str()` of a non-negative integer field, as measured by `len(str(x[i]))`, is a non-empty string of decimal digits whose value is that integer |
| `Text.LJust` | getusers.py:421-422 | `ljust(width)` keeps the text as a prefix, pads only with spaces, and has length `max(width, len)` |
| `Privilege.GroupFields` | getusers.py:322-326 | a group line always has a first field, so the guarded `fields[0]` never fails |
| `Privilege.InSudoers` | getusers.py:317-319 | the sudoers test holds iff some line contains `user + " "` as a substring |
| `Privilege.GroupGrantsStep` | getusers.py:327-335 | one group line: another group is skipped, a short privileged line raises, a listing privileged line grants, otherwise the scan goes on |
| `Privilege.GroupGrantsCons` | getusers.py:321-335 | the scan of a line followed by more lines is decided by that line when it grants or raises, and by the rest otherwise |
| `Privilege.GroupGrantsDecided` | getusers.py:321-337 | the group scan is decided by the first line that grants or raises; with no such line it answers false |
| `Privilege.IsSudoIff` | getusers.py:306-337 | when no privileged line is short, `is_sudo` is true iff a sudoers line contains `user + " "` or a `wheel`/`admin`/`sudo` line lists `user` exactly among its comma-separated members |
| `Privilege.IsSudoRaises` | getusers.py:327-332 | `is_sudo` raises iff the sudoers test fails and the first deciding group line is a privileged line with fewer than four fields |
| `Privilege.OtherGroupIgnored` | getusers.py:327-331 | inserting a line of any group other than `wheel`, `admin`, `sudo` anywhere never changes the verdict or the error |
| `GetUsers.Users.SudoersList` | getusers.py:317-319 | the sudoers loop returns true exactly when the sudoers test holds |
| `GetUsers.IsMember` | getusers.py:333-335 | the member loop finds `user` iff it is an exact element of the member list |
| `GetUsers.Users.GroupScan` | getusers.py:321-337 | the group loop returns what the group scan specifies, error included |
| `GetUsers.Users.IsSudo` | getusers.py:306-337 | `is_sudo` returns what the specification function gives on the stored sudoers and group lines |
| `Reports.KeptMembers` | getusers.py:209-210 | a report of a mode lists exactly the accounts whose UID the mode keeps: `uid <= SYS_UID_MAX` (no lower bound), `UID_MIN <= uid <= UID_MAX`, or all |
| `Reports.KeptAppend` | getusers.py:243-244 | filtering keeps database order |
| `Reports.KeptAll` | getusers.py:277-283 | the all-users reports list every account in database order |
| `Reports.Gecos` | getusers.py:230-234 | the comment is cut to 16 characters plus ".." (length 18) when longer than 18, kept when 1..18 long, and "None" when empty; never empty |
| `Reports.RowFor` | getusers.py:225-236 | a row has as many cells as its header |
| `Reports.RowMatchesHeader` | getusers.py:211-236 | each column holds what its header names: uid, name, gid, shortened comment, home, shell, "yes"/"no" from `is_sudo`, last login |
| `Reports.ReportCollects` | getusers.py:206-217 | a report is the rows of the listed accounts evaluated in database order, stopping at the first raise |
| `Reports.ReportRaises` | getusers.py:220-237 | a report raises iff the row of some listed account raises, and then with the first such error |
| `Reports.ReportRows` | getusers.py:240-251 | a report that does not raise has exactly one row per listed account, in order, each that account's row |
| `GetUsers.Users.Build` | getusers.py:206-303 | the shared builder loop returns the specified report of the stored accounts for any mode and verbosity |
| `GetUsers.Users.GetSystemUsers` | getusers.py:206-217 | `get_system_users` is the system-mode standard report |
| `GetUsers.Users.GetSystemFull` | getusers.py:220-237 | `get_system_full` is the system-mode full report |
| `GetUsers.Users.GetRegularUsers` | getusers.py:240-251 | `get_users` is the regular-mode standard report |
| `GetUsers.Users.GetRegularFull` | getusers.py:254-271 | `get_users_full` is the regular-mode full report |
| `GetUsers.Users.GetAllUsers` | getusers.py:274-284 | `get_all_users` is the all-mode standard report |
| `GetUsers.Users.GetAllFull` | getusers.py:287-303 | `get_all_users_full` is the all-mode full report |
| `Table.MaxIsMax` | getusers.py:350-361 | a running maximum started at 0 is at least every value and equals one of them unless it is 0 |
| `Table.MaxSnoc` | getusers.py:355-356 | one more value raises the maximum to that value only when it is larger |
| `Table.MaxLenIsMax` | getusers.py:353-356 | the running maximum over a row is at least every field's length and equals one of them unless 0 |
| `Table.MaxFieldLengthCovers` | getusers.py:350-361 | no entry's own longest field exceeds `get_max_field_length` |
| `Table.MaxFieldLengthBounds` | getusers.py:350-361 | no scalar and no element of a row, one level deep, is longer than `get_max_field_length` |
| `Table.MaxFieldLengthAttained` | getusers.py:350-361 | `get_max_field_length` is 0 or the length of some field |
| `Table.GetMaxFieldLength` | getusers.py:340-361 | the nested loop computes the maximum field length one level deep (0 for an empty table) |
| `Table.ColumnWidthCovers` | getusers.py:413-419 | the column width is at least 2 and at least every header and cell length + 2 |
| `Table.ColumnWidthAttained` | getusers.py:413-419 | the column width is exactly 2 more than the longest header or cell, or 2 |
| `Table.RenderTable` | getusers.py:421-425 | one header line, then one line per row in order, all at the one column width |
| `Table.PrintRows` | getusers.py:423-425 | the row loop renders one line per row, in order |
| `Table.PrintTable` | getusers.py:403-425 | `print_table` produces the specified lines |
| `Table.ConcatLength` | getusers.py:421-422 | joining blocks of `width` characters gives `width × number of blocks` characters |
| `Table.ConcatBlock` | getusers.py:421-422 | in such a join, the k-th run of `width` characters is block k |
| `Table.LineBlock` | getusers.py:421-425 | in a printed line, the k-th block of the column width is word k left-justified to that width |
| `Table.LineLayout` | getusers.py:421-425 | a line of words each two shorter than the width has word k at block k followed by spaces to the block's end |
| `Table.TableLayout` | getusers.py:413-425 | every printed line uses the one column width, which exceeds each of its words by at least 2 |
| `Table.TableLineLength` | getusers.py:413-425 | every printed line is `column_width × number of fields` long |
| `Scenarios.GecosCases` | getusers.py:232-234 | a 19-character comment becomes its first 16 plus "..", an 18-character one is kept, an empty one becomes "None" |
| `Scenarios.SudoersLine` | getusers.py:317-319 | the line `alice ALL=(ALL) ALL` grants `alice` |
| `Scenarios.DefaultPartitions` | getusers.py:206-284 | with the default thresholds, uid 0 is listed as system only, uids 1001 and 1002 as regular, and all three in order by the all-users report |

## Left out

- Argument parsing, the banner, the version, colours and the `show_*` / `main` dispatch: user interface with no invariants.
- Opening the passwd, group, defs and sudoers files and `sys.exit` when one cannot be opened: I/O. The file contents are passed to `InitVariables` as sequences.
- `pwd.getpwall()`: a foreign call. Accounts are given as `Reports.Account` records (name, uid, gid, gecos, home, shell). The unused password field is dropped.
- Running `last` with `subprocess.Popen` and decoding its bytes: a process boundary. Its output is given as token lists. The defs lines are given as token lists too, so Python's whitespace `split()` is not modelled. A blank defs line is an empty token list and is skipped, as the filter at getusers.py:155 drops it.
- Python's `int()`: `Text.ParseInt` accepts an optional sign followed by ASCII decimal digits. It does not model surrounding whitespace, underscores or non-ASCII digits.
- Strings are Python 3 `str` values, sequences of code points: `len`, the `gecos[:16]` cut and `ljust` count characters. Under Python 2, which the script also supports (getusers.py:1, 7, 199-200), pwd fields and file lines are byte strings and these count bytes, so a comment with multi-byte letters is cut at a different point; byte lengths are not modelled.
- `Text.Strip` removes the characters Python 3's `str.isspace()` accepts (`Text.IsSpace` lists them). Python 2's byte-string `strip()` removes only space, `\t`, `\n`, `\v`, `\f` and `\r`; that set is not modelled.
- `print` itself: `Table.PrintTable` returns the lines it would print, without the colour codes and without the trailing space that `print(..., Color.RESET)` adds.
- The class attributes `SUDO_CONTENT`, `GROUP_CONTENT` and `USERS` start as `None` in the script, and a loop over `None` raises `TypeError` where a loop over an empty list does nothing. The model starts them as empty lists. The difference is never observed: `init_variables` sets all three before any report function reads them, and when it exits or raises, the script ends before any report is built.
- `print_table` calls `get_max_field_length` on the header list and on the row list. `Table.GetMaxFieldLength` takes both as lists of `Table.Entry` values (a scalar, or a row measured one level down). A `set` element is not modelled, because the report never builds one.
- Python exception messages: an error value says which key, token, group line or login row failed, not what Python would print.
