/**
 * The report builders (`get_system_users` .. `get_all_users_full`): which
 * accounts a report lists, and the row it lists for each.
 */
module Reports {
  import opened Wrappers
  import opened Faults
  import Text
  import Thresholds
  import Privilege
  import Logins

  /** One entry of the account database: pw_name, pw_uid, pw_gid, pw_gecos, pw_dir, pw_shell. */
  datatype Account = Account(name: string, uid: int, gid: int, gecos: string, dir: string, shell: string)

  /** A table cell: the report puts both integers and strings in its rows. */
  datatype Cell = IntCell(n: int) | StrCell(s: string)

  /** `str(cell)`. */
  function Show(c: Cell): string {
    match c
    case IntCell(n) => Text.IntToString(n)
    case StrCell(s) => s
  }

  type Row = seq<Cell>

  /** Which accounts a report lists. */
  datatype Mode = System | Regular | All

  /** The loaded sources a row is enriched from: sudoers lines, group lines and the login index. */
  datatype Sources = Sources(sudoLines: seq<string>, groupLines: seq<string>, logins: seq<seq<string>>)
  {
    predicate Valid() {
      Logins.WellFormedIndex(logins)
    }
  }

  /**
   * Whether a report of `mode` lists an account with uid `uid`: system
   * accounts have no lower bound (`SYS_UID_MIN` is never consulted).
   */
  predicate Keeps(t: Thresholds.Thresholds, mode: Mode, uid: int) {
    match mode
    case System => uid <= t.sysUidMax
    case Regular => t.uidMin <= uid <= t.uidMax
    case All => true
  }

  /** The accounts a report of `mode` lists, in database order. */
  function Kept(t: Thresholds.Thresholds, mode: Mode, accounts: seq<Account>): (kept: seq<Account>)
    ensures |kept| <= |accounts|
  {
    if accounts == [] then []
    else
      var rest := Kept(t, mode, accounts[1..]);
      if Keeps(t, mode, accounts[0].uid) then [accounts[0]] + rest else rest
  }

  /** A report of `mode` lists exactly the accounts whose UID the mode keeps. */
  lemma {:induction false} KeptMembers(t: Thresholds.Thresholds, mode: Mode, accounts: seq<Account>)
    ensures forall a :: a in Kept(t, mode, accounts) <==> a in accounts && Keeps(t, mode, a.uid)
    decreases |accounts|
  {
    if accounts != [] {
      KeptMembers(t, mode, accounts[1..]);
      assert forall a :: a in accounts <==> a == accounts[0] || a in accounts[1..];
    }
  }

  /** Filtering keeps database order: the accounts of `a + b` are those of `a`, then those of `b`. */
  lemma {:induction false} KeptAppend(t: Thresholds.Thresholds, mode: Mode, a: seq<Account>, b: seq<Account>)
    ensures Kept(t, mode, a + b) == Kept(t, mode, a) + Kept(t, mode, b)
    decreases |a|
  {
    if a == [] {
      assert a + b == b;
    } else {
      KeptAppend(t, mode, a[1..], b);
      assert (a + b)[0] == a[0] && (a + b)[1..] == a[1..] + b;
      var ka, kb := Kept(t, mode, a[1..]), Kept(t, mode, b);
      if Keeps(t, mode, a[0].uid) {
        assert Kept(t, mode, a + b) == [a[0]] + (ka + kb);
        assert Kept(t, mode, a) == [a[0]] + ka;
        assert [a[0]] + (ka + kb) == [a[0]] + ka + kb;
      } else {
        assert Kept(t, mode, a + b) == ka + kb;
        assert Kept(t, mode, a) == ka;
      }
    }
  }

  /** The `all` reports list every account, in database order. */
  lemma {:induction false} KeptAll(t: Thresholds.Thresholds, accounts: seq<Account>)
    ensures Kept(t, All, accounts) == accounts
    decreases |accounts|
  {
    if accounts != [] {
      KeptAll(t, accounts[1..]);
      assert [accounts[0]] + accounts[1..] == accounts;
    }
  }

  /**
   * The comment column: longer than 18 characters is cut to 16 plus "..",
   * empty becomes "None"; the result is never empty and never longer than 18.
   */
  function Gecos(gecos: string): (shown: string)
    ensures shown != [] && |shown| <= 18
    ensures |gecos| > 18 ==> shown == gecos[..16] + ".." && |shown| == 18
    ensures 0 < |gecos| <= 18 ==> shown == gecos
    ensures gecos == [] ==> shown == "None"
  {
    var cut := if |gecos| > 18 then gecos[..16] + ".." else gecos;
    if cut == "" then "None" else cut
  }

  const HeaderStandard: seq<string> := ["ID", "User", "Home", "Shell", "Sudo", "Last Login"]
  const HeaderFull: seq<string> := ["ID", "User", "Group ID", "GECOS", "Home", "Shell", "Sudo", "Last Login"]

  /** The header of a standard (`full == false`) or full report. */
  function Header(full: bool): seq<string> {
    if full then HeaderFull else HeaderStandard
  }

  /** The sudo column. */
  function SudoText(sudo: bool): string {
    if sudo then "yes" else "no"
  }

  /** The row of one account, once its privilege and last login are known. */
  function MakeRow(a: Account, sudo: bool, login: string, full: bool): Row {
    if full then
      [IntCell(a.uid), StrCell(a.name), IntCell(a.gid), StrCell(Gecos(a.gecos)),
       StrCell(a.dir), StrCell(a.shell), StrCell(SudoText(sudo)), StrCell(login)]
    else
      [IntCell(a.uid), StrCell(a.name), StrCell(a.dir), StrCell(a.shell),
       StrCell(SudoText(sudo)), StrCell(login)]
  }

  /** The row of one listed account: `is_sudo` first, then `get_last_login`; either may raise. */
  function RowFor(src: Sources, a: Account, full: bool): (r: Result<Row, Fault>)
    requires src.Valid()
    ensures r.Success? ==> |r.value| == |Header(full)|
  {
    match Privilege.IsSudo(a.name, src.sudoLines, src.groupLines)
    case Failure(e) => Failure(e)
    case Success(sudo) =>
      match Logins.LastLogin(a.name, src.logins)
      case Failure(e) => Failure(e)
      case Success(login) => Success(MakeRow(a, sudo, login, full))
  }

  /** Every column of a row holds what its header names. */
  lemma RowMatchesHeader(src: Sources, a: Account, full: bool)
    requires src.Valid()
    requires RowFor(src, a, full).Success?
    ensures var row, h := RowFor(src, a, full).value, Header(full);
      var sudo := Privilege.IsSudo(a.name, src.sudoLines, src.groupLines);
      var login := Logins.LastLogin(a.name, src.logins);
      && |row| == |h|
      && sudo.Success? && login.Success?
      && forall k :: 0 <= k < |h| ==>
        && (h[k] == "ID" ==> row[k] == IntCell(a.uid))
        && (h[k] == "User" ==> row[k] == StrCell(a.name))
        && (h[k] == "Group ID" ==> row[k] == IntCell(a.gid))
        && (h[k] == "GECOS" ==> row[k] == StrCell(Gecos(a.gecos)))
        && (h[k] == "Home" ==> row[k] == StrCell(a.dir))
        && (h[k] == "Shell" ==> row[k] == StrCell(a.shell))
        && (h[k] == "Sudo" ==> row[k] == StrCell(if sudo.value then "yes" else "no"))
        && (h[k] == "Last Login" ==> row[k] == StrCell(login.value))
  {
    var sudo := Privilege.IsSudo(a.name, src.sudoLines, src.groupLines);
    var login := Logins.LastLogin(a.name, src.logins);
    assert sudo.Success? && login.Success?;
    var row := RowFor(src, a, full).value;
    assert row == MakeRow(a, sudo.value, login.value, full);
    if full {
      HeaderColumns(HeaderFull, row, a, sudo.value, login.value);
    } else {
      HeaderColumns(HeaderStandard, row, a, sudo.value, login.value);
    }
  }

  /** The column check of `RowMatchesHeader` for one header and one row, index by index. */
  lemma HeaderColumns(h: seq<string>, row: Row, a: Account, sudo: bool, login: string)
    requires h == HeaderFull || h == HeaderStandard
    requires row == MakeRow(a, sudo, login, h == HeaderFull)
    ensures |row| == |h|
    ensures forall k :: 0 <= k < |h| ==>
        && (h[k] == "ID" ==> row[k] == IntCell(a.uid))
        && (h[k] == "User" ==> row[k] == StrCell(a.name))
        && (h[k] == "Group ID" ==> row[k] == IntCell(a.gid))
        && (h[k] == "GECOS" ==> row[k] == StrCell(Gecos(a.gecos)))
        && (h[k] == "Home" ==> row[k] == StrCell(a.dir))
        && (h[k] == "Shell" ==> row[k] == StrCell(a.shell))
        && (h[k] == "Sudo" ==> row[k] == StrCell(if sudo then "yes" else "no"))
        && (h[k] == "Last Login" ==> row[k] == StrCell(login))
  {
    assert HeaderFull != HeaderStandard by {
      assert |HeaderFull| != |HeaderStandard|;
    }
  }

  /** A report: the row of every account `mode` lists, in database order; the first raise ends it. */
  function Report(t: Thresholds.Thresholds, src: Sources, accounts: seq<Account>, mode: Mode, full: bool)
    : Result<seq<Row>, Fault>
    requires src.Valid()
    decreases |accounts|
  {
    if accounts == [] then Success([])
    else if !Keeps(t, mode, accounts[0].uid) then Report(t, src, accounts[1..], mode, full)
    else
      match RowFor(src, accounts[0], full)
      case Failure(e) => Failure(e)
      case Success(row) =>
        match Report(t, src, accounts[1..], mode, full)
        case Failure(e) => Failure(e)
        case Success(rows) => Success([row] + rows)
  }

  /** The row of each of `accounts`, as `RowFor` gives it (raised or not). */
  function RowResults(src: Sources, accounts: seq<Account>, full: bool): (rs: seq<Result<Row, Fault>>)
    requires src.Valid()
    ensures |rs| == |accounts|
    ensures forall i :: 0 <= i < |accounts| ==> rs[i] == RowFor(src, accounts[i], full)
  {
    if accounts == [] then [] else [RowFor(src, accounts[0], full)] + RowResults(src, accounts[1..], full)
  }

  /** Evaluating results left to right: the first failure, or else every value in order. */
  function Collect<T, E>(rs: seq<Result<T, E>>): Result<seq<T>, E> {
    if rs == [] then Success([])
    else
      match rs[0]
      case Failure(e) => Failure(e)
      case Success(v) =>
        match Collect(rs[1..])
        case Failure(e) => Failure(e)
        case Success(vs) => Success([v] + vs)
  }

  /** The report is the rows of the listed accounts, evaluated in database order. */
  lemma {:induction false} ReportCollects(t: Thresholds.Thresholds, src: Sources, accounts: seq<Account>,
                                          mode: Mode, full: bool)
    requires src.Valid()
    ensures Report(t, src, accounts, mode, full) == Collect(RowResults(src, Kept(t, mode, accounts), full))
    decreases |accounts|
  {
    if accounts != [] {
      ReportCollects(t, src, accounts[1..], mode, full);
      var rest := Kept(t, mode, accounts[1..]);
      if Keeps(t, mode, accounts[0].uid) {
        var rs := RowResults(src, Kept(t, mode, accounts), full);
        assert Kept(t, mode, accounts) == [accounts[0]] + rest;
        assert rs == [RowFor(src, accounts[0], full)] + RowResults(src, rest, full);
        assert rs[1..] == RowResults(src, rest, full);
      }
    }
  }

  /**
   * All results succeed exactly when the collection does, which then holds
   * one value per result, in order.
   */
  lemma {:induction false} CollectSucceeds<T, E>(rs: seq<Result<T, E>>)
    ensures Collect(rs).Success? <==> forall i :: 0 <= i < |rs| ==> rs[i].Success?
    ensures Collect(rs).Success? ==>
      |Collect(rs).value| == |rs| && forall i :: 0 <= i < |rs| ==> rs[i] == Success(Collect(rs).value[i])
    decreases |rs|
  {
    if rs != [] {
      CollectSucceeds(rs[1..]);
      assert forall i :: 1 <= i < |rs| ==> rs[i] == rs[1..][i - 1];
    }
  }

  /** The collection fails with the error of the first failing result. */
  lemma {:induction false} CollectRaises<T, E>(rs: seq<Result<T, E>>, i: int)
    requires 0 <= i < |rs| && rs[i].Failure?
    requires forall j :: 0 <= j < i ==> rs[j].Success?
    ensures Collect(rs) == Failure(rs[i].error)
    decreases |rs|
  {
    if i > 0 {
      assert forall j :: 0 <= j < i - 1 ==> rs[1..][j] == rs[j + 1];
      CollectRaises(rs[1..], i - 1);
    }
  }

  /**
   * A report raises exactly when the row of some listed account raises, and
   * then with the error of the first such account.
   */
  lemma ReportRaises(t: Thresholds.Thresholds, src: Sources, accounts: seq<Account>, mode: Mode, full: bool)
    requires src.Valid()
    ensures var kept := Kept(t, mode, accounts);
      && (Report(t, src, accounts, mode, full).Failure? <==>
            exists i :: 0 <= i < |kept| && RowFor(src, kept[i], full).Failure?)
      && forall i :: 0 <= i < |kept| && RowFor(src, kept[i], full).Failure?
                     && (forall j :: 0 <= j < i ==> RowFor(src, kept[j], full).Success?) ==>
           Report(t, src, accounts, mode, full) == Failure(RowFor(src, kept[i], full).error)
  {
    var kept := Kept(t, mode, accounts);
    var rs := RowResults(src, kept, full);
    ReportCollects(t, src, accounts, mode, full);
    CollectSucceeds(rs);
    forall i | 0 <= i < |kept| && RowFor(src, kept[i], full).Failure?
               && (forall j :: 0 <= j < i ==> RowFor(src, kept[j], full).Success?)
      ensures Report(t, src, accounts, mode, full) == Failure(RowFor(src, kept[i], full).error)
    {
      CollectRaises(rs, i);
    }
  }

  /**
   * A report that does not raise has exactly one row per listed account, in
   * database order, each the row of that account.
   */
  lemma ReportRows(t: Thresholds.Thresholds, src: Sources, accounts: seq<Account>, mode: Mode, full: bool)
    requires src.Valid()
    requires Report(t, src, accounts, mode, full).Success?
    ensures var kept, rows := Kept(t, mode, accounts), Report(t, src, accounts, mode, full).value;
      && |rows| == |kept|
      && forall i :: 0 <= i < |kept| ==> RowFor(src, kept[i], full) == Success(rows[i])
  {
    ReportCollects(t, src, accounts, mode, full);
    CollectSucceeds(RowResults(src, Kept(t, mode, accounts), full));
  }
}
