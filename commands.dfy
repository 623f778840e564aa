/**
 * Shell commands built from a package manager's profile, and the
 * batch-then-singles strategy of `pkgs_install` and `pkgs_remove`.
 *
 * Running a command (`run_cmd`, which hands the string to `/bin/sh`) is
 * an oracle: `Shell.succeeds` tells whether a command string exits with
 * success, and `Shell.issued` records every command run, in order.
 */
module Commands {
  import opened GoStrings

  /** The four command templates of one package manager (`Pkg_config`). */
  datatype Profile = Profile(update: string, install: string, remove: string, installed: string)

  const PkgPlaceholder := "<pkg>"
  const PkgsPlaceholder := "<pkgs>"

  /** The installed-check for one package: every `<pkg>` replaced by its name. */
  function CheckCmd(profile: Profile, pkg: string): string {
    ReplaceAll(profile.installed, PkgPlaceholder, pkg)
  }

  /** An install or remove command for a list of packages: every `<pkgs>`
      replaced by the names joined with single spaces. */
  function BatchCmd(template: string, pkgs: seq<string>): string {
    ReplaceAll(template, PkgsPlaceholder, Join(pkgs, " "))
  }

  /** One single-package command per package, in list order. */
  function SingleCmds(template: string, pkgs: seq<string>): seq<string>
    decreases |pkgs|
  {
    if |pkgs| == 0 then []
    else SingleCmds(template, pkgs[..|pkgs| - 1]) + [BatchCmd(template, [pkgs[|pkgs| - 1]])]
  }

  /** The commands `pkgs_install`/`pkgs_remove` run, given the oracle: the
      batch command, then, if it failed and there was more than one
      package, the single-package commands. */
  function BatchTrace(template: string, pkgs: seq<string>, succeeds: string -> bool): seq<string>
  {
    var batch := BatchCmd(template, pkgs);
    if succeeds(batch) || |pkgs| <= 1 then [batch]
    else [batch] + SingleCmds(template, pkgs)
  }

  /** The command-running collaborator. */
  class Shell {
    const succeeds: string -> bool
    var issued: seq<string>

    constructor (succeeds: string -> bool)
      ensures this.succeeds == succeeds && issued == []
    {
      this.succeeds := succeeds;
      issued := [];
    }

    /** `run_cmd`: runs one command and reports whether it succeeded. */
    method Run(cmd: string) returns (ok: bool)
      modifies this
      ensures ok == succeeds(cmd)
      ensures issued == old(issued) + [cmd]
    {
      ok := succeeds(cmd);
      issued := issued + [cmd];
    }
  }

  /** `update_all`: runs the update command. The source panics when it
      fails; here `ok` is false and the caller aborts. */
  method UpdateAll(shell: Shell, profile: Profile) returns (ok: bool)
    modifies shell
    ensures ok == shell.succeeds(profile.update)
    ensures shell.issued == old(shell.issued) + [profile.update]
  {
    ok := shell.Run(profile.update);
  }

  /** `is_pkg_installed`: runs the installed-check; success means installed. */
  method IsPkgInstalled(shell: Shell, pkg: string, profile: Profile) returns (installed: bool)
    modifies shell
    ensures installed == shell.succeeds(CheckCmd(profile, pkg))
    ensures shell.issued == old(shell.issued) + [CheckCmd(profile, pkg)]
  {
    installed := shell.Run(CheckCmd(profile, pkg));
  }

  /** The body shared by `pkgs_install` and `pkgs_remove`: run the batch
      command; if it fails and there is more than one package, call itself
      once per package with that package alone. Failures are not reported. */
  method BatchThenSingles(shell: Shell, template: string, pkgs: seq<string>)
    modifies shell
    ensures shell.issued == old(shell.issued) + BatchTrace(template, pkgs, shell.succeeds)
    decreases |pkgs|
  {
    var cmd := BatchCmd(template, pkgs);
    var ok := shell.Run(cmd);
    if !ok {
      if |pkgs| > 1 {
        ghost var prefix := shell.issued;
        for i := 0 to |pkgs|
          invariant shell.issued == prefix + SingleCmds(template, pkgs[..i])
        {
          ghost var before := shell.issued;
          BatchThenSingles(shell, template, [pkgs[i]]);
          SinglesStep(template, pkgs, i, shell.succeeds);
          Associative(prefix, SingleCmds(template, pkgs[..i]), [BatchCmd(template, [pkgs[i]])]);
        }
        assert pkgs[..|pkgs|] == pkgs;
        Associative(old(shell.issued), [cmd], SingleCmds(template, pkgs));
      }
    }
  }

  /** One more package handled alone: a one-package list runs its batch
      command only, which is that package's single command. */
  lemma SinglesStep(template: string, pkgs: seq<string>, i: nat, succeeds: string -> bool)
    requires i < |pkgs|
    ensures BatchTrace(template, [pkgs[i]], succeeds) == [BatchCmd(template, [pkgs[i]])]
    ensures SingleCmds(template, pkgs[..i + 1]) == SingleCmds(template, pkgs[..i]) + [BatchCmd(template, [pkgs[i]])]
  {
    assert pkgs[..i + 1][..i] == pkgs[..i] && pkgs[..i + 1][i] == pkgs[i];
  }

  lemma Associative(a: seq<string>, b: seq<string>, c: seq<string>)
    ensures a + (b + c) == (a + b) + c
  {
  }

  /** `pkgs_install`. */
  method PkgsInstall(shell: Shell, pkgs: seq<string>, profile: Profile)
    modifies shell
    ensures shell.issued == old(shell.issued) + BatchTrace(profile.install, pkgs, shell.succeeds)
  {
    BatchThenSingles(shell, profile.install, pkgs);
  }

  /** `pkgs_remove`. */
  method PkgsRemove(shell: Shell, pkgs: seq<string>, profile: Profile)
    modifies shell
    ensures shell.issued == old(shell.issued) + BatchTrace(profile.remove, pkgs, shell.succeeds)
  {
    BatchThenSingles(shell, profile.remove, pkgs);
  }

  /** The single-package commands are, position by position, the template
      with `<pkgs>` replaced by that package's name alone. */
  lemma {:induction false} SingleCmdsAt(template: string, pkgs: seq<string>, i: nat)
    requires i < |pkgs|
    ensures |SingleCmds(template, pkgs)| == |pkgs|
    ensures SingleCmds(template, pkgs)[i] == ReplaceAll(template, PkgsPlaceholder, pkgs[i])
    decreases |pkgs|
  {
    var n := |pkgs|;
    JoinSingleton(pkgs[n - 1], " ");
    if i < n - 1 {
      SingleCmdsAt(template, pkgs[..n - 1], i);
    } else if n > 1 {
      SingleCmdsAt(template, pkgs[..n - 1], 0);
    }
  }

  /** What the batch-then-singles strategy runs: the batch command first;
      nothing more when it succeeds or the list has at most one package;
      otherwise exactly one single-package command per package, in list
      order, whatever their outcomes. So the recursion is at most two deep
      and at most `1 + |pkgs|` commands run. */
  lemma BatchTraceShape(template: string, pkgs: seq<string>, succeeds: string -> bool)
    ensures var trace := BatchTrace(template, pkgs, succeeds);
      && 1 <= |trace| <= 1 + |pkgs|
      && trace[0] == ReplaceAll(template, PkgsPlaceholder, Join(pkgs, " "))
      && (|trace| == 1 <==> succeeds(trace[0]) || |pkgs| <= 1)
      && (|trace| > 1 ==>
            && |trace| == 1 + |pkgs|
            && forall i :: 0 <= i < |pkgs| ==> trace[1 + i] == ReplaceAll(template, PkgsPlaceholder, pkgs[i]))
  {
    var trace := BatchTrace(template, pkgs, succeeds);
    if |pkgs| > 0 {
      SingleCmdsAt(template, pkgs, 0);
    }
    if |trace| > 1 {
      forall i | 0 <= i < |pkgs|
        ensures trace[1 + i] == ReplaceAll(template, PkgsPlaceholder, pkgs[i])
      {
        SingleCmdsAt(template, pkgs, i);
      }
    }
  }

  /** A batch template ending in its placeholder, such as
      `apt install <pkgs>`: the command is the template's text followed by
      the names, separated by single spaces. */
  lemma BatchCmdAtEnd(prefix: string, pkgs: seq<string>)
    requires '<' !in prefix
    ensures BatchCmd(prefix + PkgsPlaceholder, pkgs) == prefix + Join(pkgs, " ")
  {
    var joined := Join(pkgs, " ");
    assert prefix + PkgsPlaceholder == prefix + PkgsPlaceholder + "";
    ReplaceAllSplice(prefix, PkgsPlaceholder, "", joined);
    assert ReplaceAll("", PkgsPlaceholder, joined) == "";
  }

  /** An installed-check template ending in its placeholder, such as
      `dpkg -s <pkg>`: the command is the template's text followed by the name. */
  lemma CheckCmdAtEnd(profile: Profile, prefix: string, pkg: string)
    requires profile.installed == prefix + PkgPlaceholder
    requires '<' !in prefix
    ensures CheckCmd(profile, pkg) == prefix + pkg
  {
    assert prefix + PkgPlaceholder == prefix + PkgPlaceholder + "";
    ReplaceAllSplice(prefix, PkgPlaceholder, "", pkg);
    assert ReplaceAll("", PkgPlaceholder, pkg) == "";
  }
}
