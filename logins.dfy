/**
 * The login index (`Users.LOGINS`) built from the output of `last`, and the
 * `get_last_login` lookup over it. Each output line is given already split
 * into its whitespace-separated tokens.
 */
module Logins {
  import opened Wrappers
  import opened Faults

  /** The rows the index keeps from the `last` output: the non-empty ones, in order. */
  function NonEmptyRows(rows: seq<seq<string>>): (kept: seq<seq<string>>)
    ensures forall i :: 0 <= i < |kept| ==> kept[i] != []
    ensures forall row :: row in kept <==> row in rows && row != []
    ensures |kept| <= |rows|
  {
    if rows == [] then []
    else
      var last := rows[|rows| - 1];
      var kept := NonEmptyRows(rows[..|rows| - 1]);
      assert forall row :: row in rows <==> row in rows[..|rows| - 1] || row == last;
      if last == [] then kept else kept + [last]
  }

  /** Keeping the non-empty rows of two outputs in turn keeps them in the same order. */
  lemma {:induction false} NonEmptyRowsAppend(a: seq<seq<string>>, b: seq<seq<string>>)
    ensures NonEmptyRows(a + b) == NonEmptyRows(a) + NonEmptyRows(b)
    decreases |b|
  {
    if b == [] {
      assert a + b == a;
    } else {
      var b' := b[..|b| - 1];
      NonEmptyRowsAppend(a, b');
      assert (a + b)[..|a + b| - 1] == a + b';
      assert (a + b)[|a + b| - 1] == b[|b| - 1];
    }
  }

  /** What the lookup answers for a user the index does not know. */
  const NoneFound := "None found"

  /** The displayed login of a row: its tokens 3 to 6 (weekday, month, day, time) joined by single spaces. */
  function LoginText(row: seq<string>): string
    requires |row| >= 7
  {
    row[3] + " " + row[4] + " " + row[5] + " " + row[6]
  }

  /** The index holds no empty row, so every row has a first token. */
  predicate WellFormedIndex(logins: seq<seq<string>>) {
    forall i :: 0 <= i < |logins| ==> logins[i] != []
  }

  /** `get_last_login(user)`: the login text of the first row whose first token is `user`. */
  function LastLogin(user: string, logins: seq<seq<string>>): Result<string, Fault>
    requires WellFormedIndex(logins)
  {
    if logins == [] then Success(NoneFound)
    else if logins[0][0] == user then
      if |logins[0]| < 7 then Failure(ShortLoginRow(logins[0])) else Success(LoginText(logins[0]))
    else LastLogin(user, logins[1..])
  }

  /** Row `i` is the first row of the index that belongs to `user`. */
  predicate FirstMatch(logins: seq<seq<string>>, user: string, i: int)
    requires WellFormedIndex(logins)
  {
    0 <= i < |logins| && logins[i][0] == user
    && forall j :: 0 <= j < i ==> logins[j][0] != user
  }

  /** The lookup answers "None found" when no row of the index belongs to the user. */
  lemma {:induction false} LastLoginNoMatch(user: string, logins: seq<seq<string>>)
    requires WellFormedIndex(logins)
    requires forall i :: 0 <= i < |logins| ==> logins[i][0] != user
    ensures LastLogin(user, logins) == Success(NoneFound)
    decreases |logins|
  {
    if logins != [] {
      assert forall j :: 0 <= j < |logins| - 1 ==> logins[1..][j] == logins[j + 1];
      LastLoginNoMatch(user, logins[1..]);
    }
  }

  /**
   * Otherwise it answers from the first row that belongs to the user, and
   * raises if that row has fewer than seven tokens; later rows of the same
   * user are never consulted.
   */
  lemma {:induction false} LastLoginFirstMatch(user: string, logins: seq<seq<string>>, i: nat)
    requires WellFormedIndex(logins)
    requires FirstMatch(logins, user, i)
    ensures LastLogin(user, logins) ==
      if |logins[i]| >= 7 then Success(LoginText(logins[i])) else Failure(ShortLoginRow(logins[i]))
    decreases |logins|
  {
    if i > 0 {
      assert forall j :: 0 <= j < |logins| - 1 ==> logins[1..][j] == logins[j + 1];
      assert FirstMatch(logins[1..], user, i - 1);
      LastLoginFirstMatch(user, logins[1..], i - 1);
    }
  }

  /** A login text has at least three spaces, so it is never the "None found" answer. */
  lemma LoginTextIsNotNoneFound(row: seq<string>)
    requires |row| >= 7
    ensures LoginText(row) != NoneFound
  {
    var s := LoginText(row);
    var p := |row[3]|;
    var q := p + 1 + |row[4]|;
    assert s[p] == ' ' && s[q] == ' ';
    assert forall j :: 0 <= j < |NoneFound| && NoneFound[j] == ' ' ==> j == 4;
  }

  /** The lookup answers "None found" exactly when no row of the index belongs to the user. */
  lemma NoneFoundIff(user: string, logins: seq<seq<string>>)
    requires WellFormedIndex(logins)
    ensures LastLogin(user, logins) == Success(NoneFound) <==>
      forall i :: 0 <= i < |logins| ==> logins[i][0] != user
  {
    if forall i :: 0 <= i < |logins| ==> logins[i][0] != user {
      LastLoginNoMatch(user, logins);
    }
    if exists i :: 0 <= i < |logins| && logins[i][0] == user {
      var i := FirstMatchExists(user, logins);
      LastLoginFirstMatch(user, logins, i);
      if |logins[i]| >= 7 {
        LoginTextIsNotNoneFound(logins[i]);
      }
    }
  }

  lemma {:induction false} FirstMatchExists(user: string, logins: seq<seq<string>>) returns (i: int)
    requires WellFormedIndex(logins)
    requires exists i :: 0 <= i < |logins| && logins[i][0] == user
    ensures FirstMatch(logins, user, i)
    decreases |logins|
  {
    if logins[0][0] == user {
      i := 0;
    } else {
      var k :| 0 <= k < |logins| && logins[k][0] == user;
      assert logins[1..][k - 1][0] == user;
      var j := FirstMatchExists(user, logins[1..]);
      i := j + 1;
      assert forall m :: 1 <= m < i ==> logins[m] == logins[1..][m - 1];
    }
  }
}
