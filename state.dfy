/**
 * The tracked state of one package manager: the packages last saved for
 * it, stored as the lines of a state file. `save_state` writes the list
 * joined with newlines; `get_state` creates an empty file when there is
 * none and splits the file's text at newlines.
 *
 * The state directory is a map from manager name to file text; a
 * manager without an entry has no state file yet.
 */
module StateFile {
  import opened GoStrings

  const Newline := '\n'

  /** What `save_state` writes for a list of packages. */
  function Encode(pkgs: seq<string>): string {
    Join(pkgs, [Newline])
  }

  /** What `get_state` returns for a file's text. */
  function Decode(content: string): (pkgs: seq<string>)
    ensures |pkgs| >= 1
  {
    Split(content, Newline)
  }

  /** The text of a manager's state file; a missing file reads as empty
      (`get_state` creates it empty before reading). */
  function Content(files: map<string, string>, manager: string): string {
    if manager in files then files[manager] else ""
  }

  /** The state directory. */
  class Store {
    var files: map<string, string>

    constructor (files: map<string, string>)
      ensures this.files == files
    {
      this.files := files;
    }

    /** `get_state`: creates the file empty if it is missing, then reads
        and splits it. */
    method GetState(manager: string) returns (state: seq<string>)
      modifies this
      ensures files == old(files)[manager := Content(old(files), manager)]
      ensures state == Decode(Content(old(files), manager))
    {
      if manager !in files {
        files := files[manager := ""];
      }
      state := Split(files[manager], Newline);
    }

    /** `save_state`: replaces the file's text with the joined list. */
    method SaveState(manager: string, pkgs: seq<string>)
      modifies this
      ensures files == old(files)[manager := Encode(pkgs)]
    {
      files := files[manager := Join(pkgs, [Newline])];
    }
  }

  /** Saving then reading gives back the list, when it is non-empty and
      no package name contains a newline. */
  lemma DecodeEncode(pkgs: seq<string>)
    requires |pkgs| >= 1
    requires forall i :: 0 <= i < |pkgs| ==> Newline !in pkgs[i]
    ensures Decode(Encode(pkgs)) == pkgs
  {
    SplitJoin(pkgs, Newline);
  }

  /** Reading then saving gives back the file's text, whatever it is. */
  lemma EncodeDecode(content: string)
    ensures Encode(Decode(content)) == content
  {
    JoinSplit(content, Newline);
  }

  /** An empty (or just created) state file reads as one empty name, so
      the state read by `get_state` is never empty. */
  lemma EmptyFileDecode()
    ensures Decode("") == [""]
  {
  }

  /** Reading the state file, with the empty file read as no packages
      rather than as one empty name. */
  function DecodeIntended(content: string): (pkgs: seq<string>)
    ensures content == "" <==> pkgs == []
  {
    if content == "" then [] else Decode(content)
  }

  /** With the empty file read as no packages, saving then reading gives
      back every list of newline-free names except the one-empty-name list,
      whose encoding is the empty file; the empty list included. */
  lemma DecodeIntendedEncode(pkgs: seq<string>)
    requires pkgs != [""]
    requires forall i :: 0 <= i < |pkgs| ==> Newline !in pkgs[i]
    ensures DecodeIntended(Encode(pkgs)) == pkgs
  {
    if |pkgs| >= 1 {
      DecodeEncode(pkgs);
      if |pkgs| == 1 {
        assert Encode(pkgs) == pkgs[0];
      } else {
        assert Encode(pkgs) == pkgs[0] + [Newline] + Join(pkgs[1..], [Newline]);
      }
    }
  }
}
