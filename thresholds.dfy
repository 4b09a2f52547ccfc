/**
 * The uid thresholds of the report (`Users.UID_MIN` .. `Users.SYS_UID_MAX`)
 * and the way the login.defs lines override them.
 *
 * A defs line is given already split into its whitespace-separated tokens;
 * a blank line is the empty token list and is skipped, as the script drops
 * it before the loop.
 */
module Thresholds {
  import opened Wrappers
  import Text

  /** The four settings the defs file may override. */
  datatype Key = UidMin | UidMax | SysUidMin | SysUidMax

  datatype Thresholds = Thresholds(uidMin: int, uidMax: int, sysUidMin: int, sysUidMax: int)
  {
    function Get(k: Key): int {
      match k
      case UidMin => uidMin
      case UidMax => uidMax
      case SysUidMin => sysUidMin
      case SysUidMax => sysUidMax
    }

    /** These thresholds with setting `k` replaced by `v`. */
    function Set(k: Key, v: int): (t: Thresholds)
      ensures t.Get(k) == v
      ensures forall k' :: k' != k ==> t.Get(k') == Get(k')
    {
      match k
      case UidMin => this.(uidMin := v)
      case UidMax => this.(uidMax := v)
      case SysUidMin => this.(sysUidMin := v)
      case SysUidMax => this.(sysUidMax := v)
    }
  }

  /** The values the report uses when the defs file does not set them. */
  const Defaults := Thresholds(1000, 60000, 0, 999)

  /** Why reading the defs file stops: a recognised key without a value, or with a non-integer one. */
  datatype DefsError = MissingValue(key: Key) | NotAnInteger(key: Key, token: string)

  /** The setting a defs token names, if it names one (exact, case-sensitive match). */
  function KeyOf(token: string): (k: Option<Key>)
    ensures k == Some(UidMin) <==> token == "UID_MIN"
    ensures k == Some(UidMax) <==> token == "UID_MAX"
    ensures k == Some(SysUidMin) <==> token == "SYS_UID_MIN"
    ensures k == Some(SysUidMax) <==> token == "SYS_UID_MAX"
  {
    if token == "UID_MIN" then Some(UidMin)
    else if token == "UID_MAX" then Some(UidMax)
    else if token == "SYS_UID_MIN" then Some(SysUidMin)
    else if token == "SYS_UID_MAX" then Some(SysUidMax)
    else None
  }

  /** The setting a defs line overrides: the one its first token names. */
  function LineKey(fields: seq<string>): Option<Key> {
    if fields == [] then None else KeyOf(fields[0])
  }

  /** A line that names a setting but gives no integer for it. */
  predicate Malformed(fields: seq<string>) {
    LineKey(fields).Some? && (|fields| < 2 || Text.ParseInt(fields[1]).None?)
  }

  /** The value a well-formed setting line gives. */
  function LineValue(fields: seq<string>): int
    requires LineKey(fields).Some? && !Malformed(fields)
  {
    Text.ParseInt(fields[1]).value
  }

  /** The error reading a malformed line raises. */
  function LineError(fields: seq<string>): DefsError
    requires Malformed(fields)
  {
    var k := LineKey(fields).value;
    if |fields| < 2 then MissingValue(k) else NotAnInteger(k, fields[1])
  }

  /** One iteration of the defs loop. */
  function ApplyLine(t: Thresholds, fields: seq<string>): (r: Result<Thresholds, DefsError>)
    ensures Malformed(fields) <==> r.Failure?
    ensures r.Failure? ==> r.error == LineError(fields)
    ensures r.Success? && LineKey(fields).None? ==> r.value == t
    ensures r.Success? && LineKey(fields).Some? ==>
      r.value == t.Set(LineKey(fields).value, LineValue(fields))
  {
    match LineKey(fields)
    case None => Success(t)
    case Some(k) =>
      if |fields| < 2 then Failure(MissingValue(k))
      else
        match Text.ParseInt(fields[1])
        case None => Failure(NotAnInteger(k, fields[1]))
        case Some(v) => Success(t.Set(k, v))
  }

  /** The whole defs loop, line by line from the top, starting from `t`. */
  function ApplyDefs(t: Thresholds, lines: seq<seq<string>>): Result<Thresholds, DefsError>
    decreases |lines|
  {
    if lines == [] then Success(t)
    else
      match ApplyLine(t, lines[0])
      case Failure(e) => Failure(e)
      case Success(t') => ApplyDefs(t', lines[1..])
  }

  /**
   * Reading `a + b` is reading `a`, then, unless that raised, reading `b`
   * from where `a` left the settings.
   */
  lemma {:induction false} ApplyDefsAppend(t: Thresholds, a: seq<seq<string>>, b: seq<seq<string>>)
    ensures ApplyDefs(t, a + b) ==
      match ApplyDefs(t, a)
      case Failure(e) => Failure(e)
      case Success(t') => ApplyDefs(t', b)
    decreases |a|
  {
    if a == [] {
      assert a + b == b;
    } else {
      assert (a + b)[0] == a[0] && (a + b)[1..] == a[1..] + b;
      match ApplyLine(t, a[0]) {
        case Failure(e) =>
        case Success(t') => ApplyDefsAppend(t', a[1..], b);
      }
    }
  }

  /** Line `i` is the last line of `lines` that sets `k`. */
  predicate IsLastFor(lines: seq<seq<string>>, k: Key, i: int) {
    0 <= i < |lines| && LineKey(lines[i]) == Some(k)
    && forall j :: i < j < |lines| ==> LineKey(lines[j]) != Some(k)
  }

  /**
   * Reading fails exactly when some line names a setting without an integer
   * value, and the error is the one of the first such line.
   */
  lemma {:induction false} ApplyDefsFails(t: Thresholds, lines: seq<seq<string>>)
    ensures ApplyDefs(t, lines).Failure? <==> exists i :: 0 <= i < |lines| && Malformed(lines[i])
    ensures forall i :: (0 <= i < |lines| && Malformed(lines[i])
                         && forall j :: 0 <= j < i ==> !Malformed(lines[j])) ==>
      ApplyDefs(t, lines) == Failure(LineError(lines[i]))
    decreases |lines|
  {
    if lines != [] {
      var r := ApplyLine(t, lines[0]);
      if r.Success? {
        ApplyDefsFails(r.value, lines[1..]);
        assert forall i :: 1 <= i < |lines| ==> lines[i] == lines[1..][i - 1];
        if exists i :: 0 <= i < |lines| && Malformed(lines[i]) {
          var i :| 0 <= i < |lines| && Malformed(lines[i]);
          assert Malformed(lines[1..][i - 1]);
        }
        forall i | 0 <= i < |lines| && Malformed(lines[i])
          && (forall j :: 0 <= j < i ==> !Malformed(lines[j]))
          ensures ApplyDefs(t, lines) == Failure(LineError(lines[i]))
        {
          assert 0 < i;
          assert forall j :: 0 <= j < i - 1 ==> !Malformed(lines[1..][j]) by {
            forall j | 0 <= j < i - 1 ensures !Malformed(lines[1..][j]) {
              assert lines[1..][j] == lines[j + 1];
            }
          }
        }
      }
    }
  }

  /**
   * After a successful read, each setting holds the value of the last line
   * that names it (`ApplyDefsLast`), or its starting value when no line
   * names it: lines with any other first token change nothing.
   */
  lemma {:induction false} ApplyDefsUnnamed(t: Thresholds, lines: seq<seq<string>>, k: Key)
    requires ApplyDefs(t, lines).Success?
    requires forall i :: 0 <= i < |lines| ==> LineKey(lines[i]) != Some(k)
    ensures ApplyDefs(t, lines).value.Get(k) == t.Get(k)
    decreases |lines|
  {
    if lines != [] {
      var t' := ApplyLine(t, lines[0]).value;
      assert t'.Get(k) == t.Get(k);
      assert forall j :: 0 <= j < |lines| - 1 ==> lines[1..][j] == lines[j + 1];
      ApplyDefsUnnamed(t', lines[1..], k);
    }
  }

  /**
   * When reading succeeds, the last line that names a setting is
   * well-formed and gives the setting its final value.
   */
  lemma {:induction false} ApplyDefsLast(t: Thresholds, lines: seq<seq<string>>, k: Key, i: nat)
    requires ApplyDefs(t, lines).Success?
    requires IsLastFor(lines, k, i)
    ensures !Malformed(lines[i]) && ApplyDefs(t, lines).value.Get(k) == LineValue(lines[i])
    decreases |lines|
  {
    var t' := ApplyLine(t, lines[0]).value;
    assert forall j :: 0 <= j < |lines| - 1 ==> lines[1..][j] == lines[j + 1];
    if i == 0 {
      ApplyDefsUnnamed(t', lines[1..], k);
    } else {
      assert IsLastFor(lines[1..], k, i - 1);
      ApplyDefsLast(t', lines[1..], k, i - 1);
    }
  }
}
