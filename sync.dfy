/**
 * Reconciliation of one package manager (`sync_pkgs`).
 *
 * The desired list is an array because the source filters it in place:
 * `pkgs_to_install := pkgs[:0]` shares the desired list's backing array,
 * so each package found missing is written over the front of that list.
 * Afterwards the array ("the buffer") holds the packages to install
 * followed by the untouched tail of the desired list, and it is this
 * buffer, not the original desired list, that the removal test and the
 * saved state read.
 */
module Sync {
  import opened GoStrings
  import opened Commands
  import opened StateFile

  datatype Outcome = Completed | Aborted

  /** The installed-check of `pkg` succeeds under the oracle. */
  predicate Installed(succeeds: string -> bool, profile: Profile, pkg: string) {
    succeeds(CheckCmd(profile, pkg))
  }

  /** The desired packages whose installed-check fails, in order, with duplicates. */
  function ToInstall(succeeds: string -> bool, profile: Profile, desired: seq<string>): (missing: seq<string>)
    ensures |missing| <= |desired|
    decreases |desired|
  {
    if |desired| == 0 then []
    else
      var last := desired[|desired| - 1];
      ToInstall(succeeds, profile, desired[..|desired| - 1])
        + (if Installed(succeeds, profile, last) then [] else [last])
  }

  /** The desired list's array after the in-place filter: the packages to
      install over its front, the rest of it unchanged. */
  function Buffer(succeeds: string -> bool, profile: Profile, desired: seq<string>): seq<string> {
    var missing := ToInstall(succeeds, profile, desired);
    missing + desired[|missing|..]
  }

  /** The entries of `state`, in order with duplicates, that are not in `pkgs`. */
  function ToRemove(state: seq<string>, pkgs: seq<string>): seq<string>
    decreases |state|
  {
    if |state| == 0 then []
    else
      var last := state[|state| - 1];
      ToRemove(state[..|state| - 1], pkgs) + (if last in pkgs then [] else [last])
  }

  /** One installed-check command per desired package, in order. */
  function Checks(profile: Profile, desired: seq<string>): seq<string>
    decreases |desired|
  {
    if |desired| == 0 then []
    else Checks(profile, desired[..|desired| - 1]) + [CheckCmd(profile, desired[|desired| - 1])]
  }

  /** The packages `sync_pkgs` removes, given the text of the state file it
      reads: the tracked entries missing from the filtered buffer. */
  function Removals(succeeds: string -> bool, profile: Profile, desired: seq<string>, prior: string): seq<string> {
    var state := Decode(prior);
    if |state| > 0 then ToRemove(state, Buffer(succeeds, profile, desired)) else []
  }

  /** The state file's text after a completed `sync_pkgs`: the buffer when
      the desired list is non-empty, otherwise the text `get_state` read,
      which is empty for a file it had to create. */
  function SavedContent(succeeds: string -> bool, profile: Profile, desired: seq<string>, prior: string): string {
    if |desired| > 0 then Encode(Buffer(succeeds, profile, desired)) else prior
  }

  /** Every command `sync_pkgs` runs, in order: the update; if it succeeded,
      one installed-check per desired package, the install batch when
      something is missing, and the remove batch when something is to go. */
  function SyncTrace(succeeds: string -> bool, profile: Profile, desired: seq<string>, prior: string): seq<string> {
    if !succeeds(profile.update) then [profile.update]
    else
      var missing := ToInstall(succeeds, profile, desired);
      var removals := Removals(succeeds, profile, desired, prior);
      [profile.update] + Checks(profile, desired)
        + (if |missing| > 0 then BatchTrace(profile.install, missing, succeeds) else [])
        + (if |removals| > 0 then BatchTrace(profile.remove, removals, succeeds) else [])
  }

  /** The filter loop of `sync_pkgs`: read index `i`, write index `k`. */
  method FilterNotInstalled(shell: Shell, profile: Profile, pkgs: array<string>) returns (k: nat)
    modifies shell, pkgs
    ensures k == |ToInstall(shell.succeeds, profile, old(pkgs[..]))|
    ensures pkgs[..] == Buffer(shell.succeeds, profile, old(pkgs[..]))
    ensures shell.issued == old(shell.issued) + Checks(profile, old(pkgs[..]))
  {
    ghost var desired := pkgs[..];
    k := 0;
    for i := 0 to pkgs.Length
      invariant k <= i
      invariant pkgs[..k] == ToInstall(shell.succeeds, profile, desired[..i])
      invariant pkgs[k..] == desired[k..]
      invariant shell.issued == old(shell.issued) + Checks(profile, desired[..i])
    {
      FilterStep(shell.succeeds, profile, desired, i);
      var x := pkgs[i];
      assert x == desired[i];
      var installed := IsPkgInstalled(shell, x, profile);
      if !installed {
        ghost var front := pkgs[..k];
        pkgs[k] := x;
        k := k + 1;
        assert pkgs[..k] == front + [x];
      }
    }
    assert desired[..pkgs.Length] == desired;
  }

  /** One more desired package read by the filter loop. */
  lemma FilterStep(succeeds: string -> bool, profile: Profile, desired: seq<string>, i: nat)
    requires i < |desired|
    ensures ToInstall(succeeds, profile, desired[..i + 1])
         == ToInstall(succeeds, profile, desired[..i]) + (if Installed(succeeds, profile, desired[i]) then [] else [desired[i]])
    ensures Checks(profile, desired[..i + 1]) == Checks(profile, desired[..i]) + [CheckCmd(profile, desired[i])]
  {
    assert desired[..i + 1][..i] == desired[..i] && desired[..i + 1][i] == desired[i];
  }

  /** The removal loop of `sync_pkgs`: keeps the state entries that
      `slices.Contains` does not find in `pkgs`. */
  method CollectRemovals(state: seq<string>, pkgs: array<string>) returns (toRemove: seq<string>)
    ensures toRemove == ToRemove(state, pkgs[..])
  {
    toRemove := [];
    for i := 0 to |state|
      invariant toRemove == ToRemove(state[..i], pkgs[..])
    {
      assert state[..i + 1][..i] == state[..i];
      if state[i] !in pkgs[..] {
        toRemove := toRemove + [state[i]];
      }
    }
    assert state[..|state|] == state;
  }

  /** `sync_pkgs`: update (abort on failure), filter the desired list in
      place, install what is missing, read the tracked state, collect the
      removals against the filtered buffer, save the buffer, remove. */
  method SyncPkgs(shell: Shell, store: Store, manager: string, profile: Profile, pkgs: array<string>)
    returns (outcome: Outcome)
    modifies shell, store, pkgs
    ensures outcome == (if shell.succeeds(profile.update) then Completed else Aborted)
    ensures shell.issued == old(shell.issued)
      + SyncTrace(shell.succeeds, profile, old(pkgs[..]), Content(old(store.files), manager))
    ensures pkgs[..] == if outcome == Aborted then old(pkgs[..]) else Buffer(shell.succeeds, profile, old(pkgs[..]))
    ensures store.files == if outcome == Aborted then old(store.files)
      else old(store.files)[manager := SavedContent(shell.succeeds, profile, old(pkgs[..]), Content(old(store.files), manager))]
  {
    ghost var desired := pkgs[..];
    ghost var prior := Content(store.files, manager);
    ghost var succeeds := shell.succeeds;
    var ok := UpdateAll(shell, profile);
    if !ok {
      assert SyncTrace(succeeds, profile, desired, prior) == [profile.update];
      return Aborted;
    }
    ghost var missing := ToInstall(succeeds, profile, desired);
    ghost var buffer := Buffer(succeeds, profile, desired);
    var k := FilterNotInstalled(shell, profile, pkgs);
    assert pkgs[..] == buffer;
    assert pkgs[..k] == missing;
    ghost var checked := shell.issued;
    assert checked == old(shell.issued) + [profile.update] + Checks(profile, desired);
    if k > 0 {
      PkgsInstall(shell, pkgs[..k], profile);
    }
    ghost var installs := if |missing| > 0 then BatchTrace(profile.install, missing, succeeds) else [];
    assert shell.issued == checked + installs;
    var state := store.GetState(manager);
    assert state == Decode(prior);
    ghost var filesRead := store.files;
    assert filesRead == old(store.files)[manager := prior];
    var toRemove := [];
    if |state| > 0 {
      toRemove := CollectRemovals(state, pkgs);
    }
    assert toRemove == Removals(succeeds, profile, desired, prior);
    if pkgs.Length > 0 {
      store.SaveState(manager, pkgs[..]);
      assert store.files == filesRead[manager := Encode(buffer)];
      OverwriteTwice(old(store.files), manager, prior, Encode(buffer));
      assert SavedContent(succeeds, profile, desired, prior) == Encode(buffer);
    } else {
      assert store.files == filesRead;
      assert SavedContent(succeeds, profile, desired, prior) == prior;
    }
    ghost var installed := shell.issued;
    if |toRemove| > 0 {
      PkgsRemove(shell, toRemove, profile);
    }
    ghost var removes := if |toRemove| > 0 then BatchTrace(profile.remove, toRemove, succeeds) else [];
    assert shell.issued == installed + removes;
    assert SyncTrace(succeeds, profile, desired, prior)
        == [profile.update] + Checks(profile, desired) + installs + removes;
    ghost var head := old(shell.issued) + [profile.update] + Checks(profile, desired);
    assert shell.issued == head + installs + removes;
    ghost var checks := Checks(profile, desired);
    Associative(old(shell.issued), [profile.update], checks);
    Associative(old(shell.issued), [profile.update] + checks, installs);
    Associative(old(shell.issued), [profile.update] + checks + installs, removes);
    assert old(pkgs[..]) == desired && Content(old(store.files), manager) == prior && shell.succeeds == succeeds;
    outcome := Completed;
  }

  lemma OverwriteTwice(m: map<string, string>, key: string, first: string, second: string)
    ensures m[key := first][key := second] == m[key := second]
  {
  }

  /** A package is to be installed exactly when it is desired and its
      installed-check fails. */
  lemma {:induction false} ToInstallMembers(succeeds: string -> bool, profile: Profile, desired: seq<string>, x: string)
    ensures x in ToInstall(succeeds, profile, desired) <==> x in desired && !Installed(succeeds, profile, x)
    decreases |desired|
  {
    if |desired| > 0 {
      var n := |desired|;
      ToInstallMembers(succeeds, profile, desired[..n - 1], x);
      assert desired == desired[..n - 1] + [desired[n - 1]];
    }
  }

  /** Nothing installed: every desired package is to be installed. All
      installed: nothing is. */
  lemma {:induction false} ToInstallExtremes(succeeds: string -> bool, profile: Profile, desired: seq<string>)
    ensures (forall i :: 0 <= i < |desired| ==> !Installed(succeeds, profile, desired[i]))
      ==> ToInstall(succeeds, profile, desired) == desired
    ensures (forall i :: 0 <= i < |desired| ==> Installed(succeeds, profile, desired[i]))
      ==> ToInstall(succeeds, profile, desired) == []
    decreases |desired|
  {
    if |desired| > 0 {
      var n := |desired|;
      ToInstallExtremes(succeeds, profile, desired[..n - 1]);
      assert desired == desired[..n - 1] + [desired[n - 1]];
    }
  }

  /** The in-place filter leaves the desired list as it was exactly when the
      packages to install are a prefix of it. */
  lemma BufferUnchangedIff(succeeds: string -> bool, profile: Profile, desired: seq<string>)
    ensures var missing := ToInstall(succeeds, profile, desired);
      Buffer(succeeds, profile, desired) == desired <==> missing == desired[..|missing|]
  {
    var missing := ToInstall(succeeds, profile, desired);
    var buffer := Buffer(succeeds, profile, desired);
    assert desired == desired[..|missing|] + desired[|missing|..];
    if buffer == desired {
      assert buffer[..|missing|] == missing;
    }
  }

  /** In particular, when every desired package is missing or every one is
      installed, the desired list survives the filter unchanged. */
  lemma BufferUnchangedAtExtremes(succeeds: string -> bool, profile: Profile, desired: seq<string>)
    requires (forall i :: 0 <= i < |desired| ==> !Installed(succeeds, profile, desired[i]))
          || (forall i :: 0 <= i < |desired| ==> Installed(succeeds, profile, desired[i]))
    ensures Buffer(succeeds, profile, desired) == desired
  {
    ToInstallExtremes(succeeds, profile, desired);
    BufferUnchangedIff(succeeds, profile, desired);
  }

  /** The buffer has the desired list's length and holds only desired packages. */
  lemma BufferFromDesired(succeeds: string -> bool, profile: Profile, desired: seq<string>)
    ensures |Buffer(succeeds, profile, desired)| == |desired|
    ensures forall i :: 0 <= i < |desired| ==> Buffer(succeeds, profile, desired)[i] in desired
  {
    var missing := ToInstall(succeeds, profile, desired);
    var buffer := Buffer(succeeds, profile, desired);
    forall i | 0 <= i < |desired|
      ensures buffer[i] in desired
    {
      if i < |missing| {
        assert buffer[i] == missing[i];
        ToInstallMembers(succeeds, profile, desired, missing[i]);
      } else {
        assert buffer[i] == desired[i];
      }
    }
  }

  /** A package is removed exactly when it is tracked and not in `pkgs`. */
  lemma {:induction false} ToRemoveMembers(state: seq<string>, pkgs: seq<string>, x: string)
    ensures x in ToRemove(state, pkgs) <==> x in state && x !in pkgs
    decreases |state|
  {
    if |state| > 0 {
      var n := |state|;
      ToRemoveMembers(state[..n - 1], pkgs, x);
      assert state == state[..n - 1] + [state[n - 1]];
    }
  }

  /** Every tracked package that is no longer desired is removed, even
      though the removal test reads the filtered buffer. */
  lemma RemovesEveryUndesired(succeeds: string -> bool, profile: Profile, desired: seq<string>, state: seq<string>, x: string)
    requires x in state && x !in desired
    ensures x in ToRemove(state, Buffer(succeeds, profile, desired))
  {
    BufferFromDesired(succeeds, profile, desired);
    ToRemoveMembers(state, Buffer(succeeds, profile, desired), x);
  }

  /** The only desired packages the aliased removal test can pick are ones
      whose installed-check succeeded: a desired, missing package is always
      in the buffer. */
  lemma RemovedDesiredWasInstalled(succeeds: string -> bool, profile: Profile, desired: seq<string>, state: seq<string>, x: string)
    requires x in desired
    requires x in ToRemove(state, Buffer(succeeds, profile, desired))
    ensures Installed(succeeds, profile, x)
  {
    ToRemoveMembers(state, Buffer(succeeds, profile, desired), x);
    MissingStaysInBuffer(succeeds, profile, desired, x);
  }

  /** A desired package whose installed-check fails is in the buffer. */
  lemma MissingStaysInBuffer(succeeds: string -> bool, profile: Profile, desired: seq<string>, x: string)
    requires x in desired
    ensures !Installed(succeeds, profile, x) ==> x in Buffer(succeeds, profile, desired)
  {
    var missing := ToInstall(succeeds, profile, desired);
    ToInstallMembers(succeeds, profile, desired, x);
    if !Installed(succeeds, profile, x) {
      var j :| 0 <= j < |missing| && missing[j] == x;
      assert Buffer(succeeds, profile, desired)[j] == x;
    }
  }

  /** The order of a completed run: update first, then the checks in
      desired order, then the install commands, then the remove commands. */
  lemma SyncTraceOrder(succeeds: string -> bool, profile: Profile, desired: seq<string>, prior: string)
    ensures var trace := SyncTrace(succeeds, profile, desired, prior);
      && trace[0] == profile.update
      && (!succeeds(profile.update) ==> trace == [profile.update])
      && (succeeds(profile.update) ==>
            && |trace| >= 1 + |desired|
            && trace[1..1 + |desired|] == Checks(profile, desired)
            && (forall i :: 0 <= i < |desired| ==> trace[1 + i] == CheckCmd(profile, desired[i]))
            && (ToInstall(succeeds, profile, desired) == [] && Removals(succeeds, profile, desired, prior) == [] ==>
                  trace == [profile.update] + Checks(profile, desired)))
  {
    ChecksLength(profile, desired);
    if succeeds(profile.update) {
      var trace := SyncTrace(succeeds, profile, desired, prior);
      var missing := ToInstall(succeeds, profile, desired);
      var removals := Removals(succeeds, profile, desired, prior);
      var checks := Checks(profile, desired);
      var installs := if |missing| > 0 then BatchTrace(profile.install, missing, succeeds) else [];
      var removes := if |removals| > 0 then BatchTrace(profile.remove, removals, succeeds) else [];
      Associative([profile.update] + checks, installs, removes);
      PrefixSlice(profile.update, checks, installs + removes);
      forall i | 0 <= i < |desired|
        ensures trace[1 + i] == CheckCmd(profile, desired[i])
      {
        ChecksAt(profile, desired, i);
        assert trace[1 + i] == trace[1..1 + |desired|][i];
      }
    }
  }

  /** The elements of `middle` sit right after the head of `[head] + middle + rest`. */
  lemma PrefixSlice(head: string, middle: seq<string>, rest: seq<string>)
    ensures ([head] + middle + rest)[0] == head
    ensures |[head] + middle + rest| == 1 + |middle| + |rest|
    ensures ([head] + middle + rest)[1..1 + |middle|] == middle
    ensures rest == [] ==> [head] + middle + rest == [head] + middle
  {
    var s := [head] + middle + rest;
    assert s[1..1 + |middle|] == middle;
  }

  lemma {:induction false} ChecksLength(profile: Profile, desired: seq<string>)
    ensures |Checks(profile, desired)| == |desired|
    decreases |desired|
  {
    if |desired| > 0 {
      ChecksLength(profile, desired[..|desired| - 1]);
    }
  }

  lemma {:induction false} ChecksAt(profile: Profile, desired: seq<string>, i: nat)
    requires i < |desired|
    ensures |Checks(profile, desired)| == |desired|
    ensures Checks(profile, desired)[i] == CheckCmd(profile, desired[i])
    decreases |desired|
  {
    var n := |desired|;
    if i < n - 1 {
      ChecksAt(profile, desired[..n - 1], i);
    } else if n > 1 {
      ChecksAt(profile, desired[..n - 1], 0);
    }
  }

  /** A reconciliation example: desired [git, vim], tracked [vim, curl],
      git missing and vim installed. git is installed, curl is removed, vim
      is left alone, and the saved state is the desired list. */
  lemma ScenarioGitVimCurl(succeeds: string -> bool, profile: Profile, git: string, vim: string, curl: string)
    requires git != vim && vim != curl && git != curl
    requires Newline !in vim && Newline !in curl
    requires succeeds(profile.update)
    requires !Installed(succeeds, profile, git) && Installed(succeeds, profile, vim)
    ensures ToInstall(succeeds, profile, [git, vim]) == [git]
    ensures Buffer(succeeds, profile, [git, vim]) == [git, vim]
    ensures Removals(succeeds, profile, [git, vim], Encode([vim, curl])) == [curl]
    ensures SavedContent(succeeds, profile, [git, vim], Encode([vim, curl])) == Encode([git, vim])
    ensures SyncTrace(succeeds, profile, [git, vim], Encode([vim, curl]))
         == [profile.update, CheckCmd(profile, git), CheckCmd(profile, vim),
             BatchCmd(profile.install, [git]), BatchCmd(profile.remove, [curl])]
  {
    var desired := [git, vim];
    var prior := Encode([vim, curl]);
    ToInstallPair(succeeds, profile, git, vim);
    BufferPair(succeeds, profile, git, vim);
    RemovalsOfEncoded(succeeds, profile, desired, [vim, curl]);
    ToRemovePair(vim, curl, desired);
    ChecksPair(profile, git, vim);
    var installs := BatchTrace(profile.install, [git], succeeds);
    var removes := BatchTrace(profile.remove, [curl], succeeds);
    assert installs == [BatchCmd(profile.install, [git])];
    assert removes == [BatchCmd(profile.remove, [curl])];
    assert SyncTrace(succeeds, profile, desired, prior)
        == [profile.update] + Checks(profile, desired) + installs + removes;
  }

  /** The buffer after filtering a two-package list: only when the first
      package is installed and the second is not does it differ from the
      list, and then it holds the second package twice. */
  lemma BufferPair(succeeds: string -> bool, profile: Profile, a: string, b: string)
    ensures Buffer(succeeds, profile, [a, b])
         == if Installed(succeeds, profile, a) && !Installed(succeeds, profile, b) then [b, b] else [a, b]
  {
    ToInstallPair(succeeds, profile, a, b);
    assert [a, b][1..] == [b] && [a, b][2..] == [] && [a, b][0..] == [a, b];
  }

  /** The removals when the state file holds a saved list. */
  lemma RemovalsOfEncoded(succeeds: string -> bool, profile: Profile, desired: seq<string>, state: seq<string>)
    requires |state| >= 1
    requires forall i :: 0 <= i < |state| ==> Newline !in state[i]
    ensures Removals(succeeds, profile, desired, Encode(state)) == ToRemove(state, Buffer(succeeds, profile, desired))
  {
    DecodeEncode(state);
  }

  lemma ToInstallPair(succeeds: string -> bool, profile: Profile, a: string, b: string)
    ensures ToInstall(succeeds, profile, [a, b])
         == (if Installed(succeeds, profile, a) then [] else [a]) + (if Installed(succeeds, profile, b) then [] else [b])
  {
    assert [a, b][..1] == [a] && [a][..0] == [];
  }

  lemma ToRemovePair(a: string, b: string, pkgs: seq<string>)
    ensures ToRemove([a, b], pkgs) == (if a in pkgs then [] else [a]) + (if b in pkgs then [] else [b])
  {
    assert [a, b][..1] == [a] && [a][..0] == [];
    assert ToRemove([a], pkgs) == [] + (if a in pkgs then [] else [a]);
  }

  lemma ChecksPair(profile: Profile, a: string, b: string)
    ensures Checks(profile, [a, b]) == [CheckCmd(profile, a), CheckCmd(profile, b)]
  {
    assert [a, b][..1] == [a] && [a][..0] == [];
    assert Checks(profile, [a]) == [] + [CheckCmd(profile, a)];
  }

  // Findings: behaviour of the code as written, and the removal rule it evidently intends.

  /** As written, a tracked package that is still desired and installed is
      removed: desired [vim, git] with vim installed and git missing leaves
      the buffer [git, git], so a tracked vim is removed, and the saved
      state is [git, git]. */
  lemma AliasedBufferRemovesDesired(succeeds: string -> bool, profile: Profile, vim: string, git: string, prior: string)
    requires vim != git && Newline !in vim
    requires Installed(succeeds, profile, vim) && !Installed(succeeds, profile, git)
    ensures Buffer(succeeds, profile, [vim, git]) == [git, git]
    ensures Removals(succeeds, profile, [vim, git], Encode([vim])) == [vim]
    ensures SavedContent(succeeds, profile, [vim, git], prior) == Encode([git, git])
  {
    BufferPair(succeeds, profile, vim, git);
    RemovalsOfEncoded(succeeds, profile, [vim, git], [vim]);
    assert vim !in [git, git];
    assert ToRemove([vim], [git, git]) == [vim];
  }

  /** As written, reconciling twice is not idempotent even when nothing
      changes outside the tool: a first run that finds vim and git missing
      saves [vim, git]; if vim's install worked and git's did not, the
      second run removes vim, which is desired and installed. */
  lemma SecondRunRemovesDesired(first: string -> bool, second: string -> bool, profile: Profile, vim: string, git: string, prior: string)
    requires vim != git && Newline !in vim && Newline !in git
    requires !Installed(first, profile, vim) && !Installed(first, profile, git)
    requires Installed(second, profile, vim) && !Installed(second, profile, git)
    ensures SavedContent(first, profile, [vim, git], prior) == Encode([vim, git])
    ensures Removals(second, profile, [vim, git], SavedContent(first, profile, [vim, git], prior)) == [vim]
  {
    BufferPair(first, profile, vim, git);
    BufferPair(second, profile, vim, git);
    RemovalsOfEncoded(second, profile, [vim, git], [vim, git]);
    ToRemovePair(vim, git, [git, git]);
  }

  /** As written, the first run of a manager (no state file) reads the
      state [""], and since no desired package is the empty name it asks
      the package manager to remove the empty list. */
  lemma FirstRunRemovesEmptyName(succeeds: string -> bool, profile: Profile, desired: seq<string>)
    requires forall i :: 0 <= i < |desired| ==> desired[i] != ""
    ensures Removals(succeeds, profile, desired, "") == [""]
  {
    BufferFromDesired(succeeds, profile, desired);
    assert "" !in Buffer(succeeds, profile, desired);
    assert [""][..0] == [];
  }

  /** With the same outcomes on both runs, the second run of the code as
      written removes nothing: it reads back the buffer it saved. */
  lemma SecondRunSameOutcomes(succeeds: string -> bool, profile: Profile, desired: seq<string>, prior: string)
    requires |desired| > 0
    requires forall i :: 0 <= i < |desired| ==> Newline !in desired[i]
    ensures Removals(succeeds, profile, desired, SavedContent(succeeds, profile, desired, prior)) == []
  {
    var buffer := Buffer(succeeds, profile, desired);
    BufferFromDesired(succeeds, profile, desired);
    forall i | 0 <= i < |buffer| ensures Newline !in buffer[i] {
      var j :| 0 <= j < |desired| && desired[j] == buffer[i];
    }
    DecodeEncode(buffer);
    ToRemoveNothing(buffer, buffer);
  }

  /** Nothing is removed when every tracked entry is in `pkgs`. */
  lemma {:induction false} ToRemoveNothing(state: seq<string>, pkgs: seq<string>)
    requires forall i :: 0 <= i < |state| ==> state[i] in pkgs
    ensures ToRemove(state, pkgs) == []
    decreases |state|
  {
    if |state| > 0 {
      ToRemoveNothing(state[..|state| - 1], pkgs);
    }
  }

  /** The removals evidently intended: tracked packages not in the
      original desired list, with an empty state file read as no packages. */
  function IntendedRemovals(prior: string, desired: seq<string>): (removals: seq<string>)
    ensures forall x :: x in removals <==> x in DecodeIntended(prior) && x !in desired
  {
    var state := DecodeIntended(prior);
    forall x ensures x in ToRemove(state, desired) <==> x in state && x !in desired {
      ToRemoveMembers(state, desired, x);
    }
    ToRemove(state, desired)
  }

  /** The intended rule never removes a desired package, removes nothing on
      the first run, and removes nothing on a second run that reads back the
      desired list it saved. */
  lemma IntendedRemovalsQuiet(desired: seq<string>)
    requires desired != [""]
    requires forall i :: 0 <= i < |desired| ==> Newline !in desired[i]
    ensures IntendedRemovals("", desired) == []
    ensures IntendedRemovals(Encode(desired), desired) == []
  {
    DecodeIntendedEncode(desired);
    ToRemoveNothing(desired, desired);
  }

  /** The code as written and the intended rule agree whenever the filter
      leaves the desired list as it was and the state file is not empty. */
  lemma RemovalsAgreeWhenUnaliased(succeeds: string -> bool, profile: Profile, desired: seq<string>, prior: string)
    requires prior != ""
    requires Buffer(succeeds, profile, desired) == desired
    ensures Removals(succeeds, profile, desired, prior) == IntendedRemovals(prior, desired)
  {
    assert DecodeIntended(prior) == Decode(prior);
  }
}
