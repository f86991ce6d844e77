/**
 The names `_next_backup_path` tries: `.conf.bak`, then `.conf.bak.1`, `.conf.bak.2`, ... in place of
 the suffix of the config's name, computed as `PurePath.with_suffix` does.
 */
module BackupNames {
  import opened PyText
  import opened SetSizes

  /** The index of the last dot, or -1. */
  function LastDot(name: string): (i: int)
    ensures -1 <= i < |name|
    ensures i >= 0 ==> name[i] == '.'
    ensures forall k | i < k < |name| :: name[k] != '.'
  {
    if name == "" then -1
    else if name[|name| - 1] == '.' then |name| - 1
    else LastDot(name[..|name| - 1])
  }

  /** A suffix starts at a dot that is neither the first nor the last character. */
  function Stem(name: string): string {
    var i := LastDot(name);
    if 0 < i < |name| - 1 then name[..i] else name
  }

  function WithSuffix(name: string, suffix: string): string { Stem(name) + suffix }

  /** The k-th name tried for the backup of `config`. */
  function BackupName(config: string, k: nat): string {
    var base := WithSuffix(config, ".conf.bak");
    if k == 0 then base else WithSuffix(base, ".bak." + Decimal(k))
  }

  ghost predicate IsBackup(config: string, name: string) {
    exists k: nat :: name == BackupName(config, k)
  }

  /** The stem of a name that ends with a dot-free suffix after a dot. */
  lemma StemOfSuffixed(front: string, tail: string)
    requires front != "" && tail != "" && forall k | 0 <= k < |tail| :: tail[k] != '.'
    ensures Stem(front + "." + tail) == front
  {
    var name := front + "." + tail;
    var i := LastDot(name);
    assert name[|front|] == '.';
    assert forall k | |front| < k < |name| :: name[k] == tail[k - |front| - 1];
    assert i == |front|;
  }

  lemma StemNonEmpty(name: string)
    requires name != ""
    ensures Stem(name) != ""
  {
  }

  /** Every candidate is the stem, `.conf.bak`, and after the first a dot and a number. */
  lemma BackupNameIs(config: string, k: nat)
    requires config != ""
    ensures BackupName(config, k) == Stem(config) + ".conf" + ".bak" + (if k == 0 then "" else "." + Decimal(k))
  {
    StemNonEmpty(config);
    FirstBackupStem(Stem(config));
    assert k > 0 ==> ".bak." + Decimal(k) == ".bak" + ("." + Decimal(k));
  }

  lemma FirstBackupStem(stem: string)
    requires stem != ""
    ensures Stem(stem + ".conf.bak") == stem + ".conf"
  {
    assert stem + ".conf.bak" == (stem + ".conf") + "." + "bak";
    StemOfSuffixed(stem + ".conf", "bak");
  }

  /** The candidates are pairwise different. */
  lemma BackupNamesDiffer(config: string, j: nat, k: nat)
    requires config != "" && BackupName(config, j) == BackupName(config, k)
    ensures j == k
  {
    BackupNameIs(config, j);
    BackupNameIs(config, k);
    var front := Stem(config) + ".conf" + ".bak";
    var a := if j == 0 then "" else "." + Decimal(j);
    var b := if k == 0 then "" else "." + Decimal(k);
    assert (front + a)[|front|..] == a && (front + b)[|front|..] == b;
    if j > 0 && k > 0 {
      assert a[1..] == Decimal(j) && b[1..] == Decimal(k);
      DecimalInjective(j, k);
    }
  }

  /** The stem of a candidate is longer than the stem of the config. */
  lemma BackupStemIsLonger(config: string, k: nat)
    requires config != ""
    ensures |Stem(BackupName(config, k))| > |Stem(config)|
  {
    var stem := Stem(config);
    BackupNameIs(config, k);
    StemNonEmpty(config);
    if k == 0 {
      assert BackupName(config, k) == (stem + ".conf") + "." + "bak";
      StemOfSuffixed(stem + ".conf", "bak");
    } else {
      var front := stem + ".conf" + ".bak";
      assert BackupName(config, k) == front + "." + Decimal(k);
      StemOfSuffixed(front, Decimal(k));
    }
  }

  /** No candidate is the config's own name, whatever that name is. */
  lemma BackupIsNotConfig(config: string, k: nat)
    requires config != ""
    ensures BackupName(config, k) != config
  {
    BackupStemIsLonger(config, k);
  }

  ghost function FirstNames(config: string, n: nat): (names: set<string>)
    requires config != ""
    ensures forall name :: name in names <==> exists k: nat :: k < n && name == BackupName(config, k)
    ensures |names| == n
  {
    if n == 0 then {}
    else
      var fewer := FirstNames(config, n - 1);
      assert BackupName(config, n - 1) !in fewer by {
        if BackupName(config, n - 1) in fewer {
          var k: nat :| k < n - 1 && BackupName(config, n - 1) == BackupName(config, k);
          BackupNamesDiffer(config, n - 1, k);
        }
      }
      fewer + {BackupName(config, n - 1)}
  }

  /** If the first n candidates all exist, there are at least n files: the search must end. */
  lemma FirstNamesFit(config: string, n: nat, files: set<string>)
    requires config != "" && forall k: nat | k < n :: BackupName(config, k) in files
    ensures n <= |files|
  {
    SubsetSize(FirstNames(config, n), files);
  }
}
