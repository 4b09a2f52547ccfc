/** The places where the report raises `IndexError` instead of producing a value. */
module Faults {
  /**
   * `ShortGroupLine`: a `wheel`, `admin` or `sudo` group line with fewer than four
   * `:`-separated fields; `ShortLoginRow`: a login row for the user with fewer than
   * seven tokens.
   */
  datatype Fault = ShortGroupLine(line: string) | ShortLoginRow(row: seq<string>)
}

/**
 * `is_sudo`: whether an account holds administrative privilege, judged from the
 * sudoers lines and the group lines as the report reads them.
 */
module Privilege {
  import opened Wrappers
  import opened Faults
  import Text

  /** The group names that grant privilege (exact, case-sensitive). */
  predicate IsPrivilegedGroup(name: string) {
    name == "wheel" || name == "admin" || name == "sudo"
  }

  /** The `:`-separated fields of a group line, after stripping its whitespace. */
  function GroupFields(line: string): (fields: seq<string>)
    ensures |fields| >= 1
  {
    Text.Split(Text.Strip(line), ':')
  }

  /** A privileged group line too short to have a member list: reading it raises. */
  predicate ShortPrivileged(line: string) {
    var fields := GroupFields(line);
    IsPrivilegedGroup(fields[0]) && |fields| < 4
  }

  /** A privileged group line whose comma-separated member list has `user` as an exact element. */
  predicate GroupLineGrants(line: string, user: string) {
    var fields := GroupFields(line);
    IsPrivilegedGroup(fields[0]) && |fields| >= 4 && user in Text.Split(fields[3], ',')
  }

  /** A group line at which the group scan stops: it either grants or raises. */
  predicate Decides(line: string, user: string) {
    ShortPrivileged(line) || GroupLineGrants(line, user)
  }

  /** Line `j` is the first group line at which the scan for `user` stops. */
  predicate FirstDecisive(groupLines: seq<string>, user: string, j: int) {
    0 <= j < |groupLines| && Decides(groupLines[j], user)
    && forall k :: 0 <= k < j ==> !Decides(groupLines[k], user)
  }

  /** The sudoers test: some line contains `user` followed by one space, anywhere in it. */
  function InSudoers(user: string, sudoLines: seq<string>): (b: bool)
    ensures b <==> exists i :: 0 <= i < |sudoLines| && Text.Contains(sudoLines[i], user + " ")
  {
    if sudoLines == [] then false
    else Text.Contains(sudoLines[0], user + " ") || InSudoers(user, sudoLines[1..])
  }

  /** The group scan, line by line from the top. */
  function GroupGrants(user: string, groupLines: seq<string>): Result<bool, Fault>
    decreases |groupLines|
  {
    if groupLines == [] then Success(false)
    else
      var fields := GroupFields(groupLines[0]);
      if IsPrivilegedGroup(fields[0]) then
        if |fields| < 4 then Failure(ShortGroupLine(groupLines[0]))
        else if user in Text.Split(fields[3], ',') then Success(true)
        else GroupGrants(user, groupLines[1..])
      else GroupGrants(user, groupLines[1..])
  }

  /** `is_sudo(user)`: the sudoers test first, then the group scan. */
  function IsSudo(user: string, sudoLines: seq<string>, groupLines: seq<string>): Result<bool, Fault> {
    if InSudoers(user, sudoLines) then Success(true) else GroupGrants(user, groupLines)
  }

  /**
   * The group scan is decided by the first line that grants or raises: no such
   * line means no privilege; a granting line means privilege; a short
   * privileged line means the scan raises on that line.
   */
  lemma GroupGrantsDecided(user: string, groupLines: seq<string>)
    ensures (forall j :: 0 <= j < |groupLines| ==> !Decides(groupLines[j], user)) ==>
      GroupGrants(user, groupLines) == Success(false)
    ensures forall j :: FirstDecisive(groupLines, user, j) ==>
      GroupGrants(user, groupLines) ==
        if GroupLineGrants(groupLines[j], user) then Success(true)
        else Failure(ShortGroupLine(groupLines[j]))
  {
    if forall j :: 0 <= j < |groupLines| ==> !Decides(groupLines[j], user) {
      GroupGrantsNone(user, groupLines);
    }
    forall j | FirstDecisive(groupLines, user, j)
      ensures GroupGrants(user, groupLines) ==
        if GroupLineGrants(groupLines[j], user) then Success(true)
        else Failure(ShortGroupLine(groupLines[j]))
    {
      GroupGrantsFirst(user, groupLines, j);
    }
  }

  /** The group scan of lines none of which grants or raises answers false. */
  lemma {:induction false} GroupGrantsNone(user: string, groupLines: seq<string>)
    requires forall j :: 0 <= j < |groupLines| ==> !Decides(groupLines[j], user)
    ensures GroupGrants(user, groupLines) == Success(false)
    decreases |groupLines|
  {
    if groupLines != [] {
      GroupGrantsHead(user, groupLines);
      assert forall j :: 0 <= j < |groupLines| - 1 ==> groupLines[1..][j] == groupLines[j + 1];
      GroupGrantsNone(user, groupLines[1..]);
    }
  }

  /** The group scan answers from the first line that grants or raises. */
  lemma {:induction false} GroupGrantsFirst(user: string, groupLines: seq<string>, j: int)
    requires FirstDecisive(groupLines, user, j)
    ensures GroupGrants(user, groupLines) ==
      if GroupLineGrants(groupLines[j], user) then Success(true)
      else Failure(ShortGroupLine(groupLines[j]))
    decreases j
  {
    GroupGrantsHead(user, groupLines);
    if j > 0 {
      var rest := groupLines[1..];
      assert rest[j - 1] == groupLines[j];
      assert forall k :: 0 <= k < j - 1 ==> rest[k] == groupLines[k + 1];
      assert FirstDecisive(rest, user, j - 1);
      GroupGrantsFirst(user, rest, j - 1);
    }
  }

  /** The group scan on its first line, in terms of what that line decides. */
  lemma GroupGrantsHead(user: string, groupLines: seq<string>)
    requires groupLines != []
    ensures GroupGrants(user, groupLines) ==
      if Decides(groupLines[0], user) then
        (if GroupLineGrants(groupLines[0], user) then Success(true) else Failure(ShortGroupLine(groupLines[0])))
      else GroupGrants(user, groupLines[1..])
  {
  }

  /**
   * When no privileged group line is short, `is_sudo` never raises and holds
   * exactly when a sudoers line contains `user + " "` or a `wheel`, `admin` or
   * `sudo` line lists `user` as a member; other groups never grant.
   */
  lemma IsSudoIff(user: string, sudoLines: seq<string>, groupLines: seq<string>)
    requires forall j :: 0 <= j < |groupLines| ==> !ShortPrivileged(groupLines[j])
    ensures IsSudo(user, sudoLines, groupLines) == Success(
      (exists i :: 0 <= i < |sudoLines| && Text.Contains(sudoLines[i], user + " "))
      || (exists j :: 0 <= j < |groupLines| && GroupLineGrants(groupLines[j], user)))
  {
    GroupGrantsDecided(user, groupLines);
    if !InSudoers(user, sudoLines) && exists j :: 0 <= j < |groupLines| && GroupLineGrants(groupLines[j], user) {
      FirstDecisiveExists(groupLines, user);
    }
  }

  /**
   * `is_sudo` raises exactly when no sudoers line matches and the first group
   * line that would decide is a privileged line with fewer than four fields.
   */
  lemma IsSudoRaises(user: string, sudoLines: seq<string>, groupLines: seq<string>)
    ensures IsSudo(user, sudoLines, groupLines).Failure? <==>
      !InSudoers(user, sudoLines)
      && exists j :: FirstDecisive(groupLines, user, j) && ShortPrivileged(groupLines[j])
  {
    GroupGrantsDecided(user, groupLines);
    if exists j :: 0 <= j < |groupLines| && Decides(groupLines[j], user) {
      FirstDecisiveExists(groupLines, user);
    }
  }

  lemma {:induction false} FirstDecisiveExists(groupLines: seq<string>, user: string)
    requires exists j :: 0 <= j < |groupLines| && Decides(groupLines[j], user)
    ensures exists j :: FirstDecisive(groupLines, user, j)
    decreases |groupLines|
  {
    if Decides(groupLines[0], user) {
      assert FirstDecisive(groupLines, user, 0);
    } else {
      var j :| 0 <= j < |groupLines| && Decides(groupLines[j], user);
      assert Decides(groupLines[1..][j - 1], user);
      FirstDecisiveExists(groupLines[1..], user);
      var k :| FirstDecisive(groupLines[1..], user, k);
      assert FirstDecisive(groupLines, user, k + 1);
    }
  }

  /**
   * A line of any group other than `wheel`, `admin` or `sudo` can be added
   * anywhere in the group file without changing the verdict or the error.
   */
  lemma {:induction false} OtherGroupIgnored(user: string, sudoLines: seq<string>,
                                             groupLines: seq<string>, p: nat, line: string)
    requires p <= |groupLines|
    requires !IsPrivilegedGroup(GroupFields(line)[0])
    ensures IsSudo(user, sudoLines, groupLines[..p] + [line] + groupLines[p..])
         == IsSudo(user, sudoLines, groupLines)
  {
    GroupScanIgnores(user, groupLines, p, line);
  }

  lemma {:induction false} GroupScanIgnores(user: string, groupLines: seq<string>, p: nat, line: string)
    requires p <= |groupLines|
    requires !IsPrivilegedGroup(GroupFields(line)[0])
    ensures GroupGrants(user, groupLines[..p] + [line] + groupLines[p..]) == GroupGrants(user, groupLines)
    decreases p
  {
    var g := groupLines[..p] + [line] + groupLines[p..];
    GroupGrantsHead(user, g);
    if p == 0 {
      assert g[0] == line && g[1..] == groupLines;
    } else {
      var rest := groupLines[1..][..p - 1] + [line] + groupLines[1..][p - 1..];
      InsertAfterHead(groupLines, p, line);
      assert g[0] == groupLines[0] && g[1..] == rest;
      GroupScanIgnores(user, groupLines[1..], p - 1, line);
      GroupGrantsHead(user, groupLines);
    }
  }

  /** The group scan on a line followed by more lines. */
  lemma GroupGrantsCons(user: string, line: string, rest: seq<string>)
    ensures GroupGrants(user, [line] + rest) ==
      if Decides(line, user) then
        (if GroupLineGrants(line, user) then Success(true) else Failure(ShortGroupLine(line)))
      else GroupGrants(user, rest)
  {
    assert ([line] + rest)[0] == line && ([line] + rest)[1..] == rest;
  }

  /** One step of the group scan, as the loop of `is_sudo` takes it. */
  lemma GroupGrantsStep(user: string, groupLines: seq<string>, i: nat)
    requires i < |groupLines|
    ensures var fields := GroupFields(groupLines[i]);
      GroupGrants(user, groupLines[i..]) ==
        if !IsPrivilegedGroup(fields[0]) then GroupGrants(user, groupLines[i + 1..])
        else if |fields| < 4 then Failure(ShortGroupLine(groupLines[i]))
        else if user in Text.Split(fields[3], ',') then Success(true)
        else GroupGrants(user, groupLines[i + 1..])
  {
    assert groupLines[i..][0] == groupLines[i] && groupLines[i..][1..] == groupLines[i + 1..];
  }

  lemma InsertAfterHead(s: seq<string>, p: nat, x: string)
    requires 0 < p <= |s|
    ensures s[..p] + [x] + s[p..] == [s[0]] + (s[1..][..p - 1] + [x] + s[1..][p - 1..])
  {
    assert s[1..][..p - 1] == s[1..p];
    assert s[1..][p - 1..] == s[p..];
  }
}
