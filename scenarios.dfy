/** Concrete runs of the model on small inputs. */
module Scenarios {
  import opened Wrappers
  import Text
  import Thresholds
  import Privilege
  import opened Reports

  /** The comment column: 19 characters are cut, 18 are kept, none becomes "None". */
  lemma GecosCases()
    ensures Gecos("1234567890123456789") == "1234567890123456.."
    ensures Gecos("123456789012345678") == "123456789012345678"
    ensures Gecos("") == "None"
  {
  }

  /** A sudoers line that starts with the name and a space grants. */
  lemma SudoersLine()
    ensures Privilege.IsSudo("alice", ["alice ALL=(ALL) ALL"], []) == Success(true)
  {
    assert Text.OccursAt("alice ALL=(ALL) ALL", "alice ", 0);
  }

  /** With the default thresholds, root is a system account and alice and bob are regular ones. */
  lemma DefaultPartitions()
    ensures var accounts := [Account("root", 0, 0, "", "/root", "/bin/bash"),
                             Account("alice", 1001, 1001, "", "/home/alice", "/bin/bash"),
                             Account("bob", 1002, 1002, "", "/home/bob", "/bin/bash")];
      && Kept(Thresholds.Defaults, System, accounts) == accounts[..1]
      && Kept(Thresholds.Defaults, Regular, accounts) == accounts[1..]
      && Kept(Thresholds.Defaults, All, accounts) == accounts
  {
  }
}
