/**
 * The driver (`main`): parse the package list, then reconcile every
 * section whose manager has a profile, one after the other. A failed
 * update aborts the whole run.
 *
 * Go's iteration order over the parsed map is unspecified; it is the
 * parameter `order`, any duplicate-free listing of the map's keys.
 * Whether a manager has a profile file (`pkg_conf_exists`) and the
 * profile it holds (`get_pkg_config`) are the parameters `hasProfile`
 * and `profileOf`.
 */
module Driver {
  import opened Config
  import opened Commands
  import opened StateFile
  import opened Sync

  /** `order` lists every section of `config` exactly once. */
  ghost predicate Enumerates(order: seq<string>, config: Sections) {
    && (forall i, j :: 0 <= i < j < |order| ==> order[i] != order[j])
    && (forall m :: m in config <==> m in order)
  }

  /** `manager`'s state file is the same (present or absent, same text) in both. */
  predicate SameAt(files: map<string, string>, files': map<string, string>, manager: string) {
    (manager in files <==> manager in files') && (manager in files ==> files[manager] == files'[manager])
  }

  /** The commands run for one manager: its reconciliation when it has a
      profile, nothing otherwise. */
  function ManagerTrace(succeeds: string -> bool, config: Sections, manager: string, files: map<string, string>,
                        hasProfile: string -> bool, profileOf: string -> Profile): seq<string>
  {
    if hasProfile(manager) then SyncTrace(succeeds, profileOf(manager), Lookup(config, manager), Content(files, manager))
    else []
  }

  /** The loop goes on past `manager`: it has no profile, or its update succeeded. */
  predicate Continues(succeeds: string -> bool, manager: string, hasProfile: string -> bool, profileOf: string -> Profile) {
    !hasProfile(manager) || succeeds(profileOf(manager).update)
  }

  /** Every command the driver runs, in order, for the managers of `order`,
      each reading the state directory as the managers before it left it. */
  function DriverTrace(succeeds: string -> bool, config: Sections, order: seq<string>, files: map<string, string>,
                       hasProfile: string -> bool, profileOf: string -> Profile): seq<string>
    decreases |order|
  {
    if |order| == 0 then []
    else
      var next := ManagerFiles(succeeds, config, order[0], files, hasProfile, profileOf);
      ManagerTrace(succeeds, config, order[0], files, hasProfile, profileOf)
        + (if Continues(succeeds, order[0], hasProfile, profileOf)
           then DriverTrace(succeeds, config, order[1..], next, hasProfile, profileOf)
           else [])
  }

  /** The state directory after one manager: its file holds the saved
      state when it has a profile and its update succeeded, and nothing
      changes otherwise. */
  function ManagerFiles(succeeds: string -> bool, config: Sections, manager: string, files: map<string, string>,
                        hasProfile: string -> bool, profileOf: string -> Profile): map<string, string>
  {
    if hasProfile(manager) && succeeds(profileOf(manager).update)
    then files[manager := SavedContent(succeeds, profileOf(manager), Lookup(config, manager), Content(files, manager))]
    else files
  }

  /** The state directory after the driver has run the managers of `order`,
      one after the other, stopping after the first failed update. */
  function DriverFiles(succeeds: string -> bool, config: Sections, order: seq<string>, files: map<string, string>,
                       hasProfile: string -> bool, profileOf: string -> Profile): map<string, string>
    decreases |order|
  {
    if |order| == 0 then files
    else
      var next := ManagerFiles(succeeds, config, order[0], files, hasProfile, profileOf);
      if Continues(succeeds, order[0], hasProfile, profileOf)
      then DriverFiles(succeeds, config, order[1..], next, hasProfile, profileOf)
      else next
  }

  /** Some manager that has a profile fails its update. */
  ghost predicate SomeUpdateFails(succeeds: string -> bool, order: seq<string>, hasProfile: string -> bool, profileOf: string -> Profile) {
    exists i :: 0 <= i < |order| && hasProfile(order[i]) && !succeeds(profileOf(order[i]).update)
  }

  /** One iteration of `main`'s loop: reconcile `manager` when it has a
      profile, otherwise do nothing. Only `manager`'s state file can change. */
  method RunOne(shell: Shell, store: Store, config: Sections, manager: string,
                hasProfile: string -> bool, profileOf: string -> Profile)
    returns (outcome: Outcome)
    requires manager in config
    modifies shell, store
    ensures outcome == Aborted <==> !Continues(shell.succeeds, manager, hasProfile, profileOf)
    ensures shell.issued == old(shell.issued)
      + ManagerTrace(shell.succeeds, config, manager, old(store.files), hasProfile, profileOf)
    ensures store.files == ManagerFiles(shell.succeeds, config, manager, old(store.files), hasProfile, profileOf)
    ensures forall m :: m != manager || !hasProfile(manager) ==> SameAt(store.files, old(store.files), m)
  {
    outcome := Completed;
    if hasProfile(manager) {
      var pkgs := config[manager];
      var buffer := new string[|pkgs|](j requires 0 <= j < |pkgs| => pkgs[j]);
      assert buffer[..] == pkgs;
      outcome := SyncPkgs(shell, store, manager, profileOf(manager), buffer);
    }
  }

  /** The loop of `main` over the parsed sections. */
  method RunAll(shell: Shell, store: Store, config: Sections, order: seq<string>,
                hasProfile: string -> bool, profileOf: string -> Profile)
    returns (outcome: Outcome)
    requires Enumerates(order, config)
    modifies shell, store
    ensures outcome == Aborted <==> SomeUpdateFails(shell.succeeds, order, hasProfile, profileOf)
    ensures shell.issued == old(shell.issued)
      + DriverTrace(shell.succeeds, config, order, old(store.files), hasProfile, profileOf)
    ensures store.files == DriverFiles(shell.succeeds, config, order, old(store.files), hasProfile, profileOf)
    ensures forall m :: m !in order || !hasProfile(m) ==> SameAt(store.files, old(store.files), m)
  {
    ghost var trace := DriverTrace(shell.succeeds, config, order, old(store.files), hasProfile, profileOf);
    ghost var final := DriverFiles(shell.succeeds, config, order, old(store.files), hasProfile, profileOf);
    var i := 0;
    while i < |order|
      invariant 0 <= i <= |order|
      invariant old(shell.issued) + trace
             == shell.issued + DriverTrace(shell.succeeds, config, order[i..], store.files, hasProfile, profileOf)
      invariant final == DriverFiles(shell.succeeds, config, order[i..], store.files, hasProfile, profileOf)
      invariant forall j :: 0 <= j < i ==> Continues(shell.succeeds, order[j], hasProfile, profileOf)
    {
      var manager := order[i];
      ghost var files := store.files;
      ghost var issued := shell.issued;
      var result := RunOne(shell, store, config, manager, hasProfile, profileOf);
      LoopStep(old(shell.issued) + trace, final, issued, shell.issued, shell.succeeds, config, order, i,
               files, store.files, hasProfile, profileOf);
      if result == Aborted {
        DriverFilesFrame(shell.succeeds, config, order, old(store.files), hasProfile, profileOf);
        return Aborted;
      }
      i := i + 1;
    }
    DriverFilesFrame(shell.succeeds, config, order, old(store.files), hasProfile, profileOf);
    outcome := Completed;
  }

  /** The commands and the state directory still to come, one manager
      further on: all the rest when the loop goes on, nothing when it stops. */
  lemma LoopStep(total: seq<string>, final: map<string, string>, issued: seq<string>, issued': seq<string>,
                 succeeds: string -> bool, config: Sections, order: seq<string>, i: nat,
                 files: map<string, string>, files': map<string, string>,
                 hasProfile: string -> bool, profileOf: string -> Profile)
    requires i < |order|
    requires total == issued + DriverTrace(succeeds, config, order[i..], files, hasProfile, profileOf)
    requires final == DriverFiles(succeeds, config, order[i..], files, hasProfile, profileOf)
    requires issued' == issued + ManagerTrace(succeeds, config, order[i], files, hasProfile, profileOf)
    requires files' == ManagerFiles(succeeds, config, order[i], files, hasProfile, profileOf)
    ensures Continues(succeeds, order[i], hasProfile, profileOf) ==>
      && total == issued' + DriverTrace(succeeds, config, order[i + 1..], files', hasProfile, profileOf)
      && final == DriverFiles(succeeds, config, order[i + 1..], files', hasProfile, profileOf)
    ensures !Continues(succeeds, order[i], hasProfile, profileOf) ==> total == issued' && final == files'
  {
    var step := ManagerTrace(succeeds, config, order[i], files, hasProfile, profileOf);
    assert order[i..][0] == order[i] && order[i..][1..] == order[i + 1..];
    if Continues(succeeds, order[i], hasProfile, profileOf) {
      Associative(issued, step, DriverTrace(succeeds, config, order[i + 1..], files', hasProfile, profileOf));
    } else {
      assert step + [] == step;
    }
  }

  /** The driver touches only the state files of listed managers that have
      a profile. */
  lemma {:induction false} DriverFilesFrame(succeeds: string -> bool, config: Sections, order: seq<string>,
                                            files: map<string, string>, hasProfile: string -> bool, profileOf: string -> Profile)
    ensures forall m :: m !in order || !hasProfile(m) ==>
      SameAt(DriverFiles(succeeds, config, order, files, hasProfile, profileOf), files, m)
    decreases |order|
  {
    if |order| > 0 {
      var next := ManagerFiles(succeeds, config, order[0], files, hasProfile, profileOf);
      DriverFilesFrame(succeeds, config, order[1..], next, hasProfile, profileOf);
      forall m | m !in order || !hasProfile(m)
        ensures SameAt(DriverFiles(succeeds, config, order, files, hasProfile, profileOf), files, m)
      {
        assert SameAt(next, files, m);
        if m !in order {
          assert m !in order[1..];
        }
      }
    }
  }

  /** When every manager up to and including `order[i]` passes its update,
      `order[i]`'s state file ends up holding what its `sync_pkgs` saved,
      from the file it read before the run. */
  lemma {:induction false} DriverSavesProfiled(succeeds: string -> bool, config: Sections, order: seq<string>,
                                               files: map<string, string>, hasProfile: string -> bool, profileOf: string -> Profile,
                                               i: nat)
    requires forall j, k :: 0 <= j < k < |order| ==> order[j] != order[k]
    requires i < |order| && hasProfile(order[i])
    requires forall j :: 0 <= j <= i ==> Continues(succeeds, order[j], hasProfile, profileOf)
    ensures order[i] in DriverFiles(succeeds, config, order, files, hasProfile, profileOf)
    ensures DriverFiles(succeeds, config, order, files, hasProfile, profileOf)[order[i]]
         == SavedContent(succeeds, profileOf(order[i]), Lookup(config, order[i]), Content(files, order[i]))
    decreases |order|
  {
    var m := order[i];
    var next := ManagerFiles(succeeds, config, order[0], files, hasProfile, profileOf);
    assert Continues(succeeds, order[0], hasProfile, profileOf);
    var rest := order[1..];
    if i == 0 {
      assert m !in rest by {
        forall k | 0 <= k < |rest| ensures rest[k] != m {
          assert rest[k] == order[k + 1];
        }
      }
      DriverFilesFrame(succeeds, config, rest, next, hasProfile, profileOf);
      assert SameAt(DriverFiles(succeeds, config, rest, next, hasProfile, profileOf), next, m);
    } else {
      assert rest[i - 1] == m;
      assert m != order[0];
      assert Content(next, m) == Content(files, m);
      forall j | 0 <= j <= i - 1
        ensures Continues(succeeds, rest[j], hasProfile, profileOf)
      {
        assert rest[j] == order[j + 1];
      }
      forall j, k | 0 <= j < k < |rest|
        ensures rest[j] != rest[k]
      {
        assert rest[j] == order[j + 1] && rest[k] == order[k + 1];
      }
      DriverSavesProfiled(succeeds, config, rest, next, hasProfile, profileOf, i - 1);
    }
  }

  /** `main`: parse the package list, then run every section. */
  method SyncAll(shell: Shell, store: Store, lines: seq<string>, order: seq<string>,
                 hasProfile: string -> bool, profileOf: string -> Profile)
    returns (outcome: Outcome)
    requires Enumerates(order, ConfigOf(lines))
    modifies shell, store
    ensures outcome == Aborted <==> SomeUpdateFails(shell.succeeds, order, hasProfile, profileOf)
    ensures shell.issued == old(shell.issued)
      + DriverTrace(shell.succeeds, ConfigOf(lines), order, old(store.files), hasProfile, profileOf)
    ensures store.files == DriverFiles(shell.succeeds, ConfigOf(lines), order, old(store.files), hasProfile, profileOf)
    ensures forall m :: m !in order || !hasProfile(m) ==> SameAt(store.files, old(store.files), m)
  {
    var config := ParseConfig(lines);
    outcome := RunAll(shell, store, config, order, hasProfile, profileOf);
  }

  /** A run in which no manager has a profile runs no command. */
  lemma {:induction false} NoProfileNoCommands(succeeds: string -> bool, config: Sections, order: seq<string>,
                                               files: map<string, string>, hasProfile: string -> bool, profileOf: string -> Profile)
    requires forall i :: 0 <= i < |order| ==> !hasProfile(order[i])
    ensures DriverTrace(succeeds, config, order, files, hasProfile, profileOf) == []
    decreases |order|
  {
    if |order| > 0 {
      NoProfileNoCommands(succeeds, config, order[1..], files, hasProfile, profileOf);
    }
  }

  /** The desired lists the driver hands to `sync_pkgs` are never empty,
      so the state is always saved, and every name in them is a non-empty
      line of the file. `SavedStateReadsBack` builds on this. */
  lemma ParsedListsWellFormed(lines: seq<string>, manager: string)
    requires manager in ConfigOf(lines)
    ensures |ConfigOf(lines)[manager]| > 0
    ensures forall i :: 0 <= i < |ConfigOf(lines)[manager]| ==>
      ConfigOf(lines)[manager][i] != "" && ConfigOf(lines)[manager][i] in lines
  {
    var list := ConfigOf(lines)[manager];
    FoldLookup(lines, DefaultSection, map[], manager);
    FoldKeys(lines, DefaultSection, map[], manager);
    assert list == Entries(lines, DefaultSection, manager);
    forall i | 0 <= i < |list|
      ensures list[i] != "" && list[i] in lines
    {
      EntriesArePackageLines(lines, DefaultSection, manager, list[i]);
    }
  }

  /** What `sync_pkgs` saves for a parsed list reads back, on the next run,
      as exactly the filtered buffer it saved, when no line of the file
      contains a newline. */
  lemma SavedStateReadsBack(lines: seq<string>, manager: string, succeeds: string -> bool, profile: Profile, prior: string)
    requires manager in ConfigOf(lines)
    requires forall i :: 0 <= i < |lines| ==> Newline !in lines[i]
    ensures Decode(SavedContent(succeeds, profile, ConfigOf(lines)[manager], prior))
         == Buffer(succeeds, profile, ConfigOf(lines)[manager])
  {
    var list := ConfigOf(lines)[manager];
    var buffer := Buffer(succeeds, profile, list);
    ParsedListsWellFormed(lines, manager);
    BufferFromDesired(succeeds, profile, list);
    forall i | 0 <= i < |buffer|
      ensures Newline !in buffer[i]
    {
      var j :| 0 <= j < |list| && list[j] == buffer[i];
      var k :| 0 <= k < |lines| && lines[k] == list[j];
    }
    DecodeEncode(buffer);
  }

  /** A failed update aborts the run: the failing manager's state file and
      those of every manager after it are left as they were. */
  lemma {:induction false} DriverStopsAtFailedUpdate(succeeds: string -> bool, config: Sections, order: seq<string>,
                                                     files: map<string, string>, hasProfile: string -> bool,
                                                     profileOf: string -> Profile, i: nat)
    requires forall j, k :: 0 <= j < k < |order| ==> order[j] != order[k]
    requires i < |order| && !Continues(succeeds, order[i], hasProfile, profileOf)
    ensures forall j :: i <= j < |order| ==>
      SameAt(DriverFiles(succeeds, config, order, files, hasProfile, profileOf), files, order[j])
    decreases |order|
  {
    var next := ManagerFiles(succeeds, config, order[0], files, hasProfile, profileOf);
    var rest := order[1..];
    var result := DriverFiles(succeeds, config, order, files, hasProfile, profileOf);
    if i == 0 {
      assert result == files;
    } else if !Continues(succeeds, order[0], hasProfile, profileOf) {
      assert result == next;
      forall j | i <= j < |order|
        ensures SameAt(result, files, order[j])
      {
        assert order[j] != order[0];
      }
    } else {
      forall j, k | 0 <= j < k < |rest|
        ensures rest[j] != rest[k]
      {
        assert rest[j] == order[j + 1] && rest[k] == order[k + 1];
      }
      assert rest[i - 1] == order[i];
      DriverStopsAtFailedUpdate(succeeds, config, rest, next, hasProfile, profileOf, i - 1);
      assert result == DriverFiles(succeeds, config, rest, next, hasProfile, profileOf);
      forall j | i <= j < |order|
        ensures SameAt(result, files, order[j])
      {
        assert order[j] == rest[j - 1];
        assert order[j] != order[0];
        assert SameAt(result, next, order[j]);
      }
    }
  }
}
