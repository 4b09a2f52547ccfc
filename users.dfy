/**
 * The `Users` class that holds the script's runtime data, and the functions
 * of the script that fill it and read it: the threshold and login loops of
 * `init_variables`, `is_sudo`, `get_last_login` and the six report builders.
 *
 * Opening the files, `pwd.getpwall()` and running `last` are left to the
 * caller: `InitVariables` receives the group lines, the tokenised defs lines,
 * the sudoers lines, the account list and the tokenised `last` output.
 */
module GetUsers {
  import opened Wrappers
  import opened Faults
  import Text
  import Thresholds
  import Privilege
  import Logins
  import opened Reports

  /** The rows already built, put in front of what the remaining accounts give. */
  function Continue(done: seq<Row>, rest: Result<seq<Row>, Fault>): Result<seq<Row>, Fault> {
    match rest
    case Failure(e) => Failure(e)
    case Success(rows) => Success(done + rows)
  }

  lemma ContinueNil(r: Result<seq<Row>, Fault>)
    ensures Continue([], r) == r
  {
    if r.Success? {
      assert [] + r.value == r.value;
    }
  }

  lemma ContinueStep(done: seq<Row>, row: Row, rest: Result<seq<Row>, Fault>)
    ensures Continue(done, match rest case Failure(e) => Failure(e) case Success(rows) => Success([row] + rows))
         == Continue(done + [row], rest)
  {
    if rest.Success? {
      assert done + ([row] + rest.value) == done + [row] + rest.value;
    }
  }

  /** The runtime data of the script; `None` attributes start out as empty lists. */
  class Users {
    var uidMin: int
    var uidMax: int
    var sysUidMin: int
    var sysUidMax: int
    var sudoContent: seq<string>
    var groupContent: seq<string>
    var users: seq<Account>
    var logins: seq<seq<string>>

    /** The login index never holds an empty row. */
    ghost predicate Valid()
      reads this
    {
      Logins.WellFormedIndex(logins)
    }

    /** The four thresholds as one value. */
    function Limits(): Thresholds.Thresholds
      reads this
    {
      Thresholds.Thresholds(uidMin, uidMax, sysUidMin, sysUidMax)
    }

    /** The loaded sources a report row is enriched from. */
    function Loaded(): Sources
      reads this
    {
      Sources(sudoContent, groupContent, logins)
    }

    /** The class attributes as the script defines them, before `init_variables` runs. */
    constructor ()
      ensures Valid()
      ensures Limits() == Thresholds.Defaults
      ensures sudoContent == [] && groupContent == [] && users == [] && logins == []
    {
      uidMin, uidMax, sysUidMin, sysUidMax := 1000, 60000, 0, 999;
      sudoContent, groupContent, users, logins := [], [], [], [];
    }

    /**
     * `init_variables` past its file checks: keep the group lines, override
     * the thresholds from the defs lines, then keep the sudoers lines and the
     * accounts and append the non-empty `last` rows to the login index. A
     * defs line that names a setting without an integer value stops it with
     * the settings read so far in place and nothing after them loaded.
     */
    method InitVariables(groupLines: seq<string>, defsLines: seq<seq<string>>, sudoLines: seq<string>,
                         accounts: seq<Account>, lastOutput: seq<seq<string>>)
      returns (err: Option<Thresholds.DefsError>)
      requires Valid()
      modifies this
      ensures Valid()
      ensures groupContent == groupLines
      ensures err.None? <==> Thresholds.ApplyDefs(old(Limits()), defsLines).Success?
      ensures err.None? ==>
        && Limits() == Thresholds.ApplyDefs(old(Limits()), defsLines).value
        && sudoContent == sudoLines && users == accounts
        && logins == old(logins) + Logins.NonEmptyRows(lastOutput)
      ensures err.Some? ==>
        && Thresholds.ApplyDefs(old(Limits()), defsLines) == Failure(err.value)
        && (exists i :: 0 <= i < |defsLines| && Thresholds.Malformed(defsLines[i])
              && Thresholds.ApplyDefs(old(Limits()), defsLines[..i]) == Success(Limits()))
        && sudoContent == old(sudoContent) && users == old(users) && logins == old(logins)
    {
      groupContent := groupLines;
      ghost var start := Limits();
      for i := 0 to |defsLines|
        invariant Thresholds.ApplyDefs(start, defsLines[..i]) == Success(Limits())
        invariant groupContent == groupLines && sudoContent == old(sudoContent)
        invariant users == old(users) && logins == old(logins)
      {
        Thresholds.ApplyDefsAppend(start, defsLines[..i], [defsLines[i]]);
        assert defsLines[..i + 1] == defsLines[..i] + [defsLines[i]];
        var e := ReadDefsLine(defsLines[i]);
        if e.Some? {
          err := e;
          PrefixFails(start, defsLines, i);
          return;
        }
      }
      assert defsLines[..|defsLines|] == defsLines;
      err := None;
      sudoContent := sudoLines;
      users := accounts;
      LoadLogins(lastOutput);
    }

    /**
     * One line of the defs loop: a line whose first token names a setting
     * sets it to the integer after it, or raises when there is none.
     */
    method ReadDefsLine(fields: seq<string>) returns (err: Option<Thresholds.DefsError>)
      modifies this
      ensures err.None? <==> Thresholds.ApplyLine(old(Limits()), fields).Success?
      ensures err.None? ==> Limits() == Thresholds.ApplyLine(old(Limits()), fields).value
      ensures err.Some? ==> Thresholds.Malformed(fields) && err.value == Thresholds.LineError(fields)
      ensures err.Some? ==> Limits() == old(Limits())
      ensures groupContent == old(groupContent) && sudoContent == old(sudoContent)
      ensures users == old(users) && logins == old(logins)
    {
      err := None;
      if fields == [] {
      } else if fields[0] == "UID_MIN" {
        var v := ValueOf(Thresholds.UidMin, fields);
        if v.Failure? {
          return Some(v.error);
        }
        uidMin := v.value;
      } else if fields[0] == "UID_MAX" {
        var v := ValueOf(Thresholds.UidMax, fields);
        if v.Failure? {
          return Some(v.error);
        }
        uidMax := v.value;
      } else if fields[0] == "SYS_UID_MIN" {
        var v := ValueOf(Thresholds.SysUidMin, fields);
        if v.Failure? {
          return Some(v.error);
        }
        sysUidMin := v.value;
      } else if fields[0] == "SYS_UID_MAX" {
        var v := ValueOf(Thresholds.SysUidMax, fields);
        if v.Failure? {
          return Some(v.error);
        }
        sysUidMax := v.value;
      }
    }

    /** The `last` loop: append every non-empty row to the login index. */
    method LoadLogins(lastOutput: seq<seq<string>>)
      requires Valid()
      modifies this
      ensures Valid()
      ensures logins == old(logins) + Logins.NonEmptyRows(lastOutput)
      ensures Limits() == old(Limits()) && groupContent == old(groupContent)
      ensures sudoContent == old(sudoContent) && users == old(users)
    {
      for j := 0 to |lastOutput|
        invariant logins == old(logins) + Logins.NonEmptyRows(lastOutput[..j])
        invariant Valid()
        invariant Limits() == old(Limits()) && groupContent == old(groupContent)
        invariant sudoContent == old(sudoContent) && users == old(users)
      {
        var row := lastOutput[j];
        assert lastOutput[..j + 1][..j] == lastOutput[..j];
        if |row| > 0 {
          logins := logins + [row];
        }
      }
      assert lastOutput[..|lastOutput|] == lastOutput;
    }

    /**
     * `is_sudo(user)`: scan the sudoers lines for `user + " "`, then the
     * `wheel`, `admin` and `sudo` group lines for `user` among their members;
     * a privileged line without a member field raises.
     */
    method IsSudo(user: string) returns (r: Result<bool, Fault>)
      ensures r == Privilege.IsSudo(user, sudoContent, groupContent)
    {
      var listed := SudoersList(user);
      if listed {
        return Success(true);
      }
      r := GroupScan(user);
    }

    /** The first loop of `is_sudo`: some sudoers line contains `user + " "`. */
    method SudoersList(user: string) returns (listed: bool)
      ensures listed == Privilege.InSudoers(user, sudoContent)
    {
      for i := 0 to |sudoContent|
        invariant forall j :: 0 <= j < i ==> !Text.Contains(sudoContent[j], user + " ")
      {
        if Text.Contains(sudoContent[i], user + " ") {
          return true;
        }
      }
      return false;
    }

    /** The second loop of `is_sudo`: the group lines, from the top, until one grants or raises. */
    method GroupScan(user: string) returns (r: Result<bool, Fault>)
      ensures r == Privilege.GroupGrants(user, groupContent)
    {
      assert groupContent[0..] == groupContent;
      for i := 0 to |groupContent|
        invariant Privilege.GroupGrants(user, groupContent[i..]) == Privilege.GroupGrants(user, groupContent)
      {
        var line := groupContent[i];
        var fields := Privilege.GroupFields(line);
        Privilege.GroupGrantsStep(user, groupContent, i);
        if fields[0] == "wheel" || fields[0] == "admin" || fields[0] == "sudo" {
          if |fields| < 4 {
            return Failure(ShortGroupLine(line));
          }
          var member := IsMember(user, Text.Split(fields[3], ','));
          if member {
            return Success(true);
          }
        }
      }
      return Success(false);
    }

    /**
     * `get_last_login(user)`: the login text of the first index row whose
     * first token is `user`, "None found" if there is none; a matching row
     * with fewer than seven tokens raises.
     */
    method GetLastLogin(user: string) returns (r: Result<string, Fault>)
      requires Valid()
      ensures r == Logins.LastLogin(user, logins)
    {
      for i := 0 to |logins|
        invariant Logins.WellFormedIndex(logins[i..])
        invariant Logins.LastLogin(user, logins[i..]) == Logins.LastLogin(user, logins)
      {
        var x := logins[i];
        assert logins[i..][0] == x && logins[i..][1..] == logins[i + 1..];
        if x[0] == user {
          if |x| < 7 {
            return Failure(ShortLoginRow(x));
          }
          return Success(x[3] + " " + x[4] + " " + x[5] + " " + x[6]);
        }
      }
      return Success(Logins.NoneFound);
    }

    /**
     * The loop the six report builders share: for every account of the
     * database the mode lists, its privilege, its last login and, in a full
     * report, its shortened comment, appended as one row.
     */
    method Build(mode: Mode, full: bool) returns (r: Result<seq<Row>, Fault>)
      requires Valid()
      ensures r == Report(Limits(), Loaded(), users, mode, full)
    {
      var usersTable: seq<Row> := [];
      assert users[0..] == users;
      ContinueNil(Report(Limits(), Loaded(), users, mode, full));
      for i := 0 to |users|
        invariant Report(Limits(), Loaded(), users, mode, full)
               == Continue(usersTable, Report(Limits(), Loaded(), users[i..], mode, full))
      {
        var x := users[i];
        assert users[i..][0] == x && users[i..][1..] == users[i + 1..];
        var keep := match mode
          case System => x.uid <= sysUidMax
          case Regular => uidMin <= x.uid <= uidMax
          case All => true;
        if keep {
          var isSudo := IsSudo(x.name);
          if isSudo.Failure? {
            return Failure(isSudo.error);
          }
          var sudo := if isSudo.value then "yes" else "no";
          var lastLogin := GetLastLogin(x.name);
          if lastLogin.Failure? {
            return Failure(lastLogin.error);
          }
          var row: Row;
          if full {
            var gecos := x.gecos;
            gecos := if |gecos| > 18 then gecos[..16] + ".." else gecos;
            if gecos == "" {
              gecos := "None";
            }
            row := [IntCell(x.uid), StrCell(x.name), IntCell(x.gid), StrCell(gecos),
                    StrCell(x.dir), StrCell(x.shell), StrCell(sudo), StrCell(lastLogin.value)];
          } else {
            row := [IntCell(x.uid), StrCell(x.name), StrCell(x.dir), StrCell(x.shell),
                    StrCell(sudo), StrCell(lastLogin.value)];
          }
          assert row == MakeRow(x, isSudo.value, lastLogin.value, full);
          ContinueStep(usersTable, row, Report(Limits(), Loaded(), users[i + 1..], mode, full));
          usersTable := usersTable + [row];
        }
      }
      assert users[|users|..] == [] && usersTable + [] == usersTable;
      return Success(usersTable);
    }

    /** `get_system_users`: accounts with `uid <= SYS_UID_MAX`, standard rows. */
    method GetSystemUsers() returns (r: Result<seq<Row>, Fault>)
      requires Valid()
      ensures r == Report(Limits(), Loaded(), users, System, false)
    {
      r := Build(System, false);
    }

    /** `get_system_full`: accounts with `uid <= SYS_UID_MAX`, full rows. */
    method GetSystemFull() returns (r: Result<seq<Row>, Fault>)
      requires Valid()
      ensures r == Report(Limits(), Loaded(), users, System, true)
    {
      r := Build(System, true);
    }

    /** `get_users`: accounts with `UID_MIN <= uid <= UID_MAX`, standard rows. */
    method GetRegularUsers() returns (r: Result<seq<Row>, Fault>)
      requires Valid()
      ensures r == Report(Limits(), Loaded(), users, Regular, false)
    {
      r := Build(Regular, false);
    }

    /** `get_users_full`: accounts with `UID_MIN <= uid <= UID_MAX`, full rows. */
    method GetRegularFull() returns (r: Result<seq<Row>, Fault>)
      requires Valid()
      ensures r == Report(Limits(), Loaded(), users, Regular, true)
    {
      r := Build(Regular, true);
    }

    /** `get_all_users`: every account, standard rows. */
    method GetAllUsers() returns (r: Result<seq<Row>, Fault>)
      requires Valid()
      ensures r == Report(Limits(), Loaded(), users, All, false)
    {
      r := Build(All, false);
    }

    /** `get_all_users_full`: every account, full rows. */
    method GetAllFull() returns (r: Result<seq<Row>, Fault>)
      requires Valid()
      ensures r == Report(Limits(), Loaded(), users, All, true)
    {
      r := Build(All, true);
    }
  }

  /** `int(fields[1])` for a line that names setting `k`: raises without a second token or an integer. */
  method ValueOf(k: Thresholds.Key, fields: seq<string>) returns (v: Result<int, Thresholds.DefsError>)
    requires fields != [] && Thresholds.KeyOf(fields[0]) == Some(k)
    ensures v.Failure? <==> Thresholds.Malformed(fields)
    ensures v.Failure? ==> v.error == Thresholds.LineError(fields)
    ensures v.Success? ==> v.value == Thresholds.LineValue(fields)
  {
    if |fields| < 2 {
      return Failure(Thresholds.MissingValue(k));
    }
    var n := Text.ParseInt(fields[1]);
    if n.None? {
      return Failure(Thresholds.NotAnInteger(k, fields[1]));
    }
    return Success(n.value);
  }

  /** The innermost loop of `is_sudo`: `user` is one of the members of a group line. */
  method IsMember(user: string, groupUsers: seq<string>) returns (member: bool)
    ensures member <==> user in groupUsers
  {
    for k := 0 to |groupUsers|
      invariant user !in groupUsers[..k]
    {
      if groupUsers[k] == user {
        return true;
      }
    }
    assert groupUsers[..|groupUsers|] == groupUsers;
    return false;
  }

  /** A malformed line after a prefix that reads cleanly makes the whole read fail on it. */
  lemma PrefixFails(t: Thresholds.Thresholds, lines: seq<seq<string>>, i: nat)
    requires i < |lines| && Thresholds.Malformed(lines[i])
    requires Thresholds.ApplyDefs(t, lines[..i]).Success?
    ensures Thresholds.ApplyDefs(t, lines) == Failure(Thresholds.LineError(lines[i]))
  {
    var t' := Thresholds.ApplyDefs(t, lines[..i]).value;
    Thresholds.ApplyDefsAppend(t, lines[..i], lines[i..]);
    assert lines[..i] + lines[i..] == lines;
    assert lines[i..][0] == lines[i];
  }
}
