/**
 `_write_config` with `_write_secure_backup` and `_next_backup_path`, over a directory in which
 every operation may succeed, raise an error, or be the last one before a crash. What happens to
 each operation is an input, a list of fates that is consumed operation by operation.
 */
module ConfigWriter {
  import opened PyText
  import opened BackupNames
  import opened SetSizes

  type Content = seq<nat>

  type Files = map<string, Content>

  /** What an operation ends with: success, an OSError, or the death of the process. */
  datatype Fate = Done | Error | Crash

  datatype Result = Returned(ok: bool) | Crashed

  // ---------------------------------------------------------------- what one call may do

  /** Everything but the config keeps its content. */
  ghost predicate OthersKept(config: string, before: Files, after: Files) {
    forall name | name in before && name != config :: name in after && after[name] == before[name]
  }

  /** A new complete backup of the config. */
  ghost predicate BackedUp(config: string, before: Files, after: Files) {
    config in before &&
    exists k: nat :: BackupName(config, k) !in before && BackupName(config, k) in after &&
                     after[BackupName(config, k)] == before[config]
  }

  /** The config is as before. */
  ghost predicate Same(config: string, before: Files, after: Files) {
    (config in after <==> config in before) && (config in before ==> after[config] == before[config])
  }

  /** The config is the new version, and the old one, if any, was backed up. */
  ghost predicate Replaced(config: string, data: Content, before: Files, after: Files) {
    config in after && after[config] == data && (config in before ==> BackedUp(config, before, after))
  }

  /** The only new files are the config and backups with the config's old content. */
  ghost predicate NothingStray(config: string, before: Files, after: Files) {
    forall name | name in after && name !in before && name != config ::
      IsBackup(config, name) && config in before && after[name] == before[config]
  }

  /** What a call of `_write_config(data)` may leave behind. */
  ghost predicate Written(config: string, data: Content, before: Files, after: Files, result: Result) {
    && OthersKept(config, before, after)
    && (Same(config, before, after) || Replaced(config, data, before, after))
    && (!result.Crashed? ==> NothingStray(config, before, after))
    && (result == Returned(true) ==> Replaced(config, data, before, after))
  }

  // ---------------------------------------------------------------- the directory

  class Directory {
    var files: Files

    /** What each operation ends with; operations beyond the list succeed. */
    const fates: seq<Fate>
    var operations: nat

    function FateOf(k: nat): Fate { if k < |fates| then fates[k] else Done }

    /** Operations `from` up to `to` all succeed. */
    predicate AllDone(from: nat, to: nat) { forall k | from <= k < to :: FateOf(k) == Done }

    constructor (files: Files, fates: seq<Fate>)
      ensures this.files == files && this.fates == fates && operations == 0
    {
      this.files, this.fates, operations := files, fates, 0;
    }

    /** The next operation begins. */
    method Operate() returns (fate: Fate)
      modifies this`operations
      ensures fate == FateOf(old(operations)) && operations == old(operations) + 1
    {
      operations := operations + 1;
      fate := FateOf(operations - 1);
    }

    /** A name that is the prefix and something random, tried until it is free. */
    method FreeName(prefix: string) returns (name: string)
      ensures prefix < name && name !in files
    {
      var random: string := *;
      name := prefix + (if random == "" then "x" else random);
      while name in files
        invariant prefix < name
        decreases |LongNames(files.Keys, |name|)|
      {
        var longer := LongNames(files.Keys, |name| + 1);
        SubsetSize(longer + {name}, LongNames(files.Keys, |name|));
        name := name + "x";
      }
    }

    /** A new empty file with a name of its own. */
    method MakeTemp(prefix: string) returns (fate: Fate, name: string)
      modifies this
      ensures fate == FateOf(old(operations)) && operations == old(operations) + 1
      ensures prefix < name && name !in old(files)
      ensures files == if name in files then old(files)[name := []] else old(files)
      ensures fate == Done ==> name in files
      ensures fate == Error ==> name !in files
    {
      fate := Operate();
      name := FreeName(prefix);
      var late: bool := *;
      if fate == Done || (fate == Crash && late) {
        files := files[name := []];
      }
    }

    /** Writes `data` to an open file; an error or a crash leaves a part of it. */
    method WriteOut(name: string, data: Content) returns (fate: Fate)
      requires name in files
      modifies this
      ensures fate == FateOf(old(operations)) && operations == old(operations) + 1
      ensures files.Keys == old(files.Keys) && files == old(files)[name := files[name]]
      ensures fate == Done ==> files[name] == data
    {
      fate := Operate();
      var cut: int := *;
      files := files[name := if fate == Done then data else if 0 <= cut <= |data| then data[..cut] else []];
    }

    /** Makes the directory if it is not there. */
    method MakeParent() returns (fate: Fate)
      modifies this`operations
      ensures fate == FateOf(old(operations)) && operations == old(operations) + 1
    {
      fate := Operate();
    }

    /** Changes permissions, which are not modelled. */
    method Chmod() returns (fate: Fate)
      modifies this`operations
      ensures fate == FateOf(old(operations)) && operations == old(operations) + 1
    {
      fate := Operate();
    }

    /** Renames atomically; a crash comes before or after. */
    method Replace(source: string, target: string) returns (fate: Fate)
      requires source in files && source != target
      modifies this
      ensures fate == FateOf(old(operations)) && operations == old(operations) + 1
      ensures files == old(files) || files == old((files - {source})[target := files[source]])
      ensures fate == Done ==> files == old((files - {source})[target := files[source]])
      ensures fate == Error ==> files == old(files)
    {
      fate := Operate();
      var late: bool := *;
      if fate == Done || (fate == Crash && late) {
        files := (files - {source})[target := files[source]];
      }
    }

    /** Removes a file if it is there; only a crash can prevent it. */
    method Unlink(name: string) returns (crashed: bool)
      modifies this
      ensures crashed <==> FateOf(old(operations)) == Crash
      ensures files == old(files) || files == old(files - {name})
      ensures !crashed ==> files == old(files - {name})
    {
      var fate := Operate();
      crashed := fate == Crash;
      var late: bool := *;
      if !crashed || late { files := files - {name}; }
    }

    /** `_next_backup_path`: the first candidate that does not exist. */
    method NextBackupPath(config: string) returns (backup: string, ghost k: nat)
      requires config != ""
      ensures backup == BackupName(config, k) && backup !in files
      ensures forall j: nat | j < k :: BackupName(config, j) in files
    {
      var base := WithSuffix(config, ".conf.bak");
      k := 0;
      if base !in files { return base, 0; }
      var i := 1;
      while WithSuffix(base, ".bak." + Decimal(i)) in files
        invariant i >= 1 && base == BackupName(config, 0)
        invariant forall j: nat | j < i :: BackupName(config, j) in files
        decreases |files| - i
      {
        assert BackupName(config, i) in files;
        FirstNamesFit(config, i + 1, files.Keys);
        i := i + 1;
      }
      return WithSuffix(base, ".bak." + Decimal(i)), i;
    }

    /** `_write_secure_backup`: a complete copy under the backup's name, or none and no temporary file. */
    method WriteSecureBackup(config: string, backup: string) returns (fate: Fate)
      requires config in files && backup !in files
      modifies this
      ensures fate == Done <==> AllDone(old(operations), old(operations) + 4)
      ensures fate == Done ==> operations == old(operations) + 4
      ensures fate == Done ==> files == old(files)[backup := old(files[config])]
      ensures fate == Error ==> files == old(files)
      ensures OthersKept(backup, old(files), files)
      ensures backup in files ==> files[backup] == old(files[config])
    {
      ghost var before := files;
      var temp;
      fate, temp := MakeTemp("." + backup + ".");
      if fate != Done { return; }
      assert temp != backup && temp != config;
      fate := WriteOut(temp, files[config]);
      if fate == Done {
        fate := Chmod();
      }
      if fate == Done {
        fate := Replace(temp, backup);
      }
      if fate == Error {
        var crashed := Unlink(temp);
        assert !crashed ==> files == before;
        if crashed { fate := Crash; }
      }
    }

    /** The existing config's part of `_write_config`: a new complete backup, or nothing. */
    method BackUpConfig(config: string) returns (fate: Fate)
      requires config != "" && config in files
      modifies this
      ensures fate == Done <==> AllDone(old(operations), old(operations) + 5)
      ensures fate == Done ==> operations == old(operations) + 5
      ensures OthersKept(config, old(files), files) && Same(config, old(files), files)
      ensures fate != Crash ==> NothingStray(config, old(files), files)
      ensures fate == Done ==> BackedUp(config, old(files), files)
    {
      ghost var before := files;
      var backup; ghost var k;
      backup, k := NextBackupPath(config);
      BackupIsNotConfig(config, k);
      fate := Chmod();
      if fate != Done { return; }
      fate := WriteSecureBackup(config, backup);
      assert fate == Done ==> files[BackupName(config, k)] == before[config];
    }

    /** `_write_config` up to the replacement: the new version waits in a temporary file. */
    method PrepareConfig(data: Content, config: string) returns (fate: Fate, made: bool, temp: string)
      requires config != ""
      modifies this
      ensures fate == Done <==> AllDone(old(operations), old(operations) + Preparations(config, old(files)))
      ensures fate == Done ==> operations == old(operations) + Preparations(config, old(files))
      ensures OthersKept(config, old(files), files) && Same(config, old(files), files)
      ensures fate == Done ==> made && temp in files && files[temp] == data
      ensures made ==> temp !in old(files) && temp != config
      ensures !made && fate != Crash ==> files == old(files)
      ensures made && fate != Crash ==> NothingStray(config, old(files), files - {temp})
      ensures fate == Done && config in old(files) ==> BackedUp(config, old(files), files - {temp})
    {
      ghost var before := files;
      fate, temp := MakeTemp("." + config + ".");
      made := fate == Done;
      if fate != Done { return; }
      fate := WriteOut(temp, data);
      if fate != Done { return; }
      fate := Chmod();
      if fate != Done { return; }
      if config in files {
        ghost var made' := files;
        fate := BackUpConfig(config);
        if fate == Done { BackedUpWithout(config, before, temp, made', files); }
      }
    }

    /** The replacement, and the `chmod` after it. */
    method Install(temp: string, config: string) returns (fate: Fate, installed: bool)
      requires temp in files && temp != config
      modifies this
      ensures files == old(files) || files == old((files - {temp})[config := files[temp]])
      ensures installed <==> FateOf(old(operations)) == Done
      ensures installed ==> files == old((files - {temp})[config := files[temp]]) && fate == FateOf(old(operations) + 1)
      ensures !installed ==> fate == FateOf(old(operations)) && (fate == Error ==> files == old(files))
    {
      fate := Replace(temp, config);
      installed := fate == Done;
      if installed { fate := Chmod(); }
    }

    /** The body of `_write_config` before its clean-up; `made` says that a temporary file is left to remove. */
    method TryWrite(data: Content, config: string) returns (fate: Fate, made: bool, temp: string)
      requires config != ""
      modifies this
      ensures OthersKept(config, old(files), files)
      ensures Same(config, old(files), files) || Replaced(config, data, old(files), files)
      ensures made ==> temp != config && temp !in old(files)
      ensures fate != Crash ==> NothingStray(config, old(files), if made then files - {temp} else files)
      ensures var last := old(operations) + 2 + Preparations(config, old(files));
        && (AllDone(old(operations), last) ==> Replaced(config, data, old(files), files) && !made && fate == FateOf(last))
        && (!AllDone(old(operations), last) ==> fate != Done && (fate == Error ==> Same(config, old(files), files)))
    {
      ghost var before := files;
      made, temp := false, "";
      fate := MakeParent();
      if fate != Done { return; }
      fate, made, temp := PrepareConfig(data, config);
      if fate != Done { return; }
      ghost var prepared := files;
      var installed;
      fate, installed := Install(temp, config);
      if files != prepared { ReplaceIsWritten(config, data, before, prepared - {temp}); }
      if installed { made := false; }
    }

    /**
     `_write_config`. True means that every operation succeeded. False comes with a changed config
     exactly when every operation through the replacement succeeded and the `chmod` after it failed.
     */
    method WriteConfig(data: Content, config: string) returns (result: Result)
      requires config != ""
      modifies this
      ensures Written(config, data, old(files), files, result)
      ensures var last := old(operations) + 2 + Preparations(config, old(files));
        && (result == Returned(true) <==> AllDone(old(operations), last + 1))
        && (AllDone(old(operations), last) ==> Replaced(config, data, old(files), files))
        && (result == Returned(false) && !AllDone(old(operations), last) ==> Same(config, old(files), files))
        && (AllDone(old(operations), last) && FateOf(last) == Error ==> result == Returned(false))
        && (AllDone(old(operations), last) && FateOf(last) == Crash ==> result == Crashed)
    {
      var fate, made, temp := TryWrite(data, config);
      if fate == Crash { return Crashed; }
      result := Returned(fate == Done);
      if made {
        var crashed := Unlink(temp);
        if crashed { result := Crashed; }
      }
    }
  }

  /** The names of at least n characters. */
  ghost function LongNames(names: set<string>, n: nat): set<string> { set name | name in names && |name| >= n }

  /** The operations between making the directory and the replacement: five more if there is a config to back up. */
  function Preparations(config: string, files: Files): nat { if config in files then 8 else 3 }

  /** For every list of fates: False with a changed config means that only the last `chmod` failed. */
  method WriteOnce(files: Files, fates: seq<Fate>, data: Content, config: string) returns (d: Directory, result: Result)
    requires config != "" && (config in files ==> files[config] != data)
    ensures d.fates == fates && Written(config, data, files, d.files, result)
    ensures var last := Preparations(config, files) + 2;
      result == Returned(false) && !Same(config, files, d.files) <==> d.AllDone(0, last) && d.FateOf(last) == Error
  {
    d := new Directory(files, fates);
    result := d.WriteConfig(data, config);
  }

  /** It does happen: an empty directory, five operations that succeed, and a last one that fails. */
  method RefusedButWritten(data: Content) returns (d: Directory, result: Result)
    ensures result == Returned(false) && "ov.conf" in d.files && d.files["ov.conf"] == data
  {
    d, result := WriteOnce(map[], [Done, Done, Done, Done, Done, Error], data, "ov.conf");
  }

  /** A backup made beside a temporary file is there without it. */
  lemma BackedUpWithout(config: string, before: Files, temp: string, made: Files, after: Files)
    requires temp !in before && temp in made && temp != config
    requires forall name | name in before :: name in made && made[name] == before[name]
    requires config in before && BackedUp(config, made, after)
    ensures BackedUp(config, before, after - {temp})
  {
    var k: nat :| BackupName(config, k) !in made && BackupName(config, k) in after &&
                  after[BackupName(config, k)] == made[config];
    assert (after - {temp})[BackupName(config, k)] == before[config];
  }

  lemma ReplaceIsWritten(config: string, data: Content, before: Files, prepared: Files)
    requires config != "" && OthersKept(config, before, prepared) && Same(config, before, prepared)
    requires NothingStray(config, before, prepared) && (config in before ==> BackedUp(config, before, prepared))
    ensures Written(config, data, before, prepared[config := data], Returned(true))
  {
    var after := prepared[config := data];
    if config in before {
      var k: nat :| BackupName(config, k) !in before && BackupName(config, k) in prepared &&
                    prepared[BackupName(config, k)] == before[config];
      BackupIsNotConfig(config, k);
      assert after[BackupName(config, k)] == before[config];
    }
  }

  // ---------------------------------------------------------------- any number of calls

  datatype Call = Call(data: Content, result: Result)

  /** The states of the directory between calls, each of which returned or crashed. */
  ghost predicate History(config: string, states: seq<Files>, calls: seq<Call>) {
    && |states| == |calls| + 1
    && forall i | 0 <= i < |calls| :: Written(config, calls[i].data, states[i], states[i + 1], calls[i].result)
  }

  /** A version is still there: as the config, or in a backup. */
  ghost predicate Survives(config: string, version: Content, files: Files) {
    || (config in files && files[config] == version)
    || exists k: nat :: BackupName(config, k) in files && files[BackupName(config, k)] == version
  }

  lemma SurvivesCall(config: string, version: Content, before: Files, call: Call, after: Files)
    requires config != "" && Written(config, call.data, before, after, call.result) && Survives(config, version, before)
    ensures Survives(config, version, after)
  {
    if !(config in before && before[config] == version) {
      var k: nat :| BackupName(config, k) in before && before[BackupName(config, k)] == version;
      BackupIsNotConfig(config, k);
      assert after[BackupName(config, k)] == version;
    }
  }

  lemma {:induction false} SurvivesHistory(config: string, version: Content, states: seq<Files>, calls: seq<Call>, j: nat)
    requires config != "" && History(config, states, calls) && j < |states| && Survives(config, version, states[j])
    ensures Survives(config, version, states[|states| - 1])
    decreases |states| - j
  {
    if j < |calls| {
      SurvivesCall(config, version, states[j], calls[j], states[j + 1]);
      SurvivesHistory(config, version, states, calls, j + 1);
    }
  }

  /** Every version that was ever the config survives as the config or in some backup. */
  lemma NoVersionLost(config: string, states: seq<Files>, calls: seq<Call>, j: nat)
    requires config != "" && History(config, states, calls) && j < |states| && config in states[j]
    ensures Survives(config, states[j][config], states[|states| - 1])
  {
    SurvivesHistory(config, states[j][config], states, calls, j);
  }

  /** The config never vanishes, and is at all times a complete version: the first one, or one that was asked for. */
  lemma {:induction false} ConfigIsComplete(config: string, states: seq<Files>, calls: seq<Call>, j: nat)
    requires History(config, states, calls) && j < |states|
    ensures config in states[0] ==> config in states[j]
    ensures config in states[j] ==>
              || (config in states[0] && states[j][config] == states[0][config])
              || exists i | 0 <= i < j :: states[j][config] == calls[i].data
  {
    if j > 0 {
      ConfigIsComplete(config, states, calls, j - 1);
      assert Written(config, calls[j - 1].data, states[j - 1], states[j], calls[j - 1].result);
    }
  }

  /** A file that is not the config, in particular every backup, is never changed or removed. */
  lemma {:induction false} BackupsNeverChange(config: string, states: seq<Files>, calls: seq<Call>, name: string, j: nat)
    requires History(config, states, calls) && j < |states| && name in states[j] && name != config
    ensures name in states[|states| - 1] && states[|states| - 1][name] == states[j][name]
    decreases |states| - j
  {
    if j < |calls| {
      assert Written(config, calls[j].data, states[j], states[j + 1], calls[j].result);
      BackupsNeverChange(config, states, calls, name, j + 1);
    }
  }

  /** Without a crash, nothing is left behind but the config and complete backups of it. */
  lemma {:induction false} NothingLeftBehind(config: string, states: seq<Files>, calls: seq<Call>, name: string, j: nat)
    requires History(config, states, calls) && j < |states|
    requires forall i | 0 <= i < |calls| :: !calls[i].result.Crashed?
    requires name in states[j] && name !in states[0] && name != config
    ensures IsBackup(config, name)
    ensures exists i | 0 <= i < j :: config in states[i] && states[j][name] == states[i][config]
  {
    if j > 0 {
      var call := calls[j - 1];
      assert Written(config, call.data, states[j - 1], states[j], call.result);
      if name in states[j - 1] {
        NothingLeftBehind(config, states, calls, name, j - 1);
        KeptByCall(config, states[j - 1], call, states[j], name);
      } else {
        NewFileIsBackup(config, states[j - 1], call, states[j], name);
      }
    }
  }

  lemma KeptByCall(config: string, before: Files, call: Call, after: Files, name: string)
    requires Written(config, call.data, before, after, call.result) && name in before && name != config
    ensures name in after && after[name] == before[name]
  {
  }

  lemma NewFileIsBackup(config: string, before: Files, call: Call, after: Files, name: string)
    requires Written(config, call.data, before, after, call.result) && !call.result.Crashed?
    requires name in after && name !in before && name != config
    ensures IsBackup(config, name) && config in before && after[name] == before[config]
  {
  }
}
