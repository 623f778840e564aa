/**
 * The declarative package list (`parse_config`): a sectioned text file
 * read line by line. A `[name]` line switches the current section, lines
 * before the first header belong to the section "DEFAULT", and every
 * other line whose first character is an ASCII letter or digit is one
 * package of the current section. The file is given as its sequence of
 * lines, as the line scanner would deliver them.
 */
module Config {
  import opened GoStrings

  const DefaultSection := "DEFAULT"

  /** The section names with their package lists, as `parse_config` returns them. */
  type Sections = map<string, seq<string>>

  /** A line with prefix `[` and suffix `]`. */
  predicate IsHeader(line: string) {
    HasPrefix(line, "[") && HasSuffix(line, "]")
  }

  /** The text between the brackets of a header line. */
  function SectionName(line: string): (name: string)
    requires IsHeader(line)
    ensures |name| == |line| - 2 && line == "[" + name + "]"
  {
    assert line[..1][0] == '[' && line[|line| - 1..][0] == ']';
    line[1..|line| - 1]
  }

  /** The character class `[a-zA-Z0-9]` of the line pattern. */
  predicate IsAlphanumeric(c: char) {
    'a' <= c <= 'z' || 'A' <= c <= 'Z' || '0' <= c <= '9'
  }

  /** The line pattern `^[a-zA-Z0-9]`: the line starts with an ASCII letter or digit. */
  predicate IsPackageLine(line: string) {
    |line| > 0 && IsAlphanumeric(line[0])
  }

  /** The packages stored so far under `key`, empty when the key is absent. */
  function Lookup(m: Sections, key: string): seq<string> {
    if key in m then m[key] else []
  }

  /** The parser's loop as a fold: `section` is the current section and
      `acc` the map built from the lines already read. */
  function Fold(lines: seq<string>, section: string, acc: Sections): Sections
    decreases |lines|
  {
    if |lines| == 0 then acc
    else
      var line := lines[0];
      if IsHeader(line) then Fold(lines[1..], SectionName(line), acc)
      else if IsPackageLine(line) then Fold(lines[1..], section, acc[section := Lookup(acc, section) + [line]])
      else Fold(lines[1..], section, acc)
  }

  /** What `parse_config` returns for a file with these lines. */
  function ConfigOf(lines: seq<string>): Sections {
    Fold(lines, DefaultSection, map[])
  }

  /** Reference definition, one section at a time: the package lines, in
      file order and with duplicates, that are read while `key` is the
      current section, starting in section `section`. */
  function Entries(lines: seq<string>, section: string, key: string): seq<string>
    decreases |lines|
  {
    if |lines| == 0 then []
    else
      var line := lines[0];
      if IsHeader(line) then Entries(lines[1..], SectionName(line), key)
      else (if IsPackageLine(line) && section == key then [line] else []) + Entries(lines[1..], section, key)
  }

  /** The current section after reading `lines` starting in `section`:
      the name of the last header, or `section` when there is none. */
  function SectionAfter(lines: seq<string>, section: string): string
    decreases |lines|
  {
    if |lines| == 0 then section
    else if IsHeader(lines[0]) then SectionAfter(lines[1..], SectionName(lines[0]))
    else SectionAfter(lines[1..], section)
  }

  /** The package lines of `lines`, in order. */
  function PackageLines(lines: seq<string>): seq<string>
    decreases |lines|
  {
    if |lines| == 0 then []
    else (if IsPackageLine(lines[0]) then [lines[0]] else []) + PackageLines(lines[1..])
  }

  /** `parse_config`: one pass over the lines that keeps the current section
      and appends each package line to that section's list. */
  method ParseConfig(lines: seq<string>) returns (result: Sections)
    ensures result == ConfigOf(lines)
    ensures forall key :: Lookup(result, key) == Entries(lines, DefaultSection, key)
    ensures forall key :: key in result <==> Entries(lines, DefaultSection, key) != []
  {
    result := map[];
    var section := DefaultSection;
    var i := 0;
    while i < |lines|
      invariant 0 <= i <= |lines|
      invariant Fold(lines[i..], section, result) == ConfigOf(lines)
    {
      var line := lines[i];
      assert lines[i..][0] == line && lines[i..][1..] == lines[i + 1..];
      if HasPrefix(line, "[") && HasSuffix(line, "]") {
        section := line[1..|line| - 1];
      } else if IsPackageLine(line) {
        result := result[section := Lookup(result, section) + [line]];
      }
      i := i + 1;
    }
    forall key ensures Lookup(result, key) == Entries(lines, DefaultSection, key)
                    && (key in result <==> Entries(lines, DefaultSection, key) != [])
    {
      FoldLookup(lines, DefaultSection, map[], key);
      FoldKeys(lines, DefaultSection, map[], key);
    }
  }

  /** Each section's list is what it had before followed by the package
      lines read while it is current. */
  lemma {:induction false} FoldLookup(lines: seq<string>, section: string, acc: Sections, key: string)
    ensures Lookup(Fold(lines, section, acc), key) == Lookup(acc, key) + Entries(lines, section, key)
    decreases |lines|
  {
    if |lines| > 0 {
      var line := lines[0];
      if IsHeader(line) {
        FoldLookup(lines[1..], SectionName(line), acc, key);
      } else if IsPackageLine(line) {
        var acc' := acc[section := Lookup(acc, section) + [line]];
        FoldLookup(lines[1..], section, acc', key);
      } else {
        FoldLookup(lines[1..], section, acc, key);
      }
    }
  }

  /** A key is present exactly when it was present before or some package
      line was read under it: no section is ever stored with an empty list. */
  lemma {:induction false} FoldKeys(lines: seq<string>, section: string, acc: Sections, key: string)
    ensures key in Fold(lines, section, acc) <==> key in acc || Entries(lines, section, key) != []
    decreases |lines|
  {
    if |lines| > 0 {
      var line := lines[0];
      if IsHeader(line) {
        FoldKeys(lines[1..], SectionName(line), acc, key);
      } else if IsPackageLine(line) {
        var acc' := acc[section := Lookup(acc, section) + [line]];
        FoldKeys(lines[1..], section, acc', key);
      } else {
        FoldKeys(lines[1..], section, acc, key);
      }
    }
  }

  /** Every stored package is one of the file's lines, and starts with an
      ASCII letter or digit (so it is never empty and never a header). */
  lemma {:induction false} EntriesArePackageLines(lines: seq<string>, section: string, key: string, x: string)
    requires x in Entries(lines, section, key)
    ensures x in lines && IsPackageLine(x) && !IsHeader(x)
    decreases |lines|
  {
    var line := lines[0];
    if IsHeader(line) {
      EntriesArePackageLines(lines[1..], SectionName(line), key, x);
    } else if x != line || !IsPackageLine(line) || section != key {
      EntriesArePackageLines(lines[1..], section, key, x);
    }
  }

  /** Reading two stretches of the file one after the other: the second
      stretch starts in the section the first one left current, so a
      section that is reopened later is appended to. */
  lemma {:induction false} EntriesAppend(front: seq<string>, back: seq<string>, section: string, key: string)
    ensures Entries(front + back, section, key)
         == Entries(front, section, key) + Entries(back, SectionAfter(front, section), key)
    decreases |front|
  {
    if |front| > 0 {
      assert (front + back)[0] == front[0] && (front + back)[1..] == front[1..] + back;
      var line := front[0];
      if IsHeader(line) {
        EntriesAppend(front[1..], back, SectionName(line), key);
      } else {
        EntriesAppend(front[1..], back, section, key);
      }
    } else {
      assert front + back == back;
    }
  }

  /** Lines without any header all belong to the section they start in. */
  lemma {:induction false} NoHeaderEntries(lines: seq<string>, section: string, key: string)
    requires forall i :: 0 <= i < |lines| ==> !IsHeader(lines[i])
    ensures Entries(lines, section, key) == (if key == section then PackageLines(lines) else [])
    ensures SectionAfter(lines, section) == section
    decreases |lines|
  {
    if |lines| > 0 {
      NoHeaderEntries(lines[1..], section, key);
    }
  }

  /** The package lines before the first header are stored under "DEFAULT"
      and under no other key; the rest of the file is read from "DEFAULT". */
  lemma LeadingLinesAreDefault(front: seq<string>, back: seq<string>, key: string)
    requires forall i :: 0 <= i < |front| ==> !IsHeader(front[i])
    ensures Lookup(ConfigOf(front + back), key)
         == (if key == DefaultSection then PackageLines(front) else []) + Entries(back, DefaultSection, key)
  {
    FoldLookup(front + back, DefaultSection, map[], key);
    EntriesAppend(front, back, DefaultSection, key);
    NoHeaderEntries(front, DefaultSection, key);
  }

  /** A header line switches the section and is not itself stored. */
  lemma HeaderSwitchesSection(header: string, rest: seq<string>, section: string, key: string)
    requires IsHeader(header)
    ensures Entries([header] + rest, section, key) == Entries(rest, SectionName(header), key)
    ensures SectionAfter([header], section) == SectionName(header)
  {
    assert ([header] + rest)[1..] == rest;
  }

  /** A header line built from a section name. */
  lemma HeaderOf(name: string)
    ensures IsHeader("[" + name + "]") && SectionName("[" + name + "]") == name
  {
    var line := "[" + name + "]";
    assert line[..1] == "[" && line[|line| - 1..] == "]";
    assert line[1..|line| - 1] == name;
  }

  /** A file with a package and a comment before its first header: the
      package goes to "DEFAULT" and the comment is dropped. */
  lemma ParseLeadingPackage(apt: string, base: string, note: string, vim: string)
    requires apt != DefaultSection
    requires IsPackageLine(base) && IsPackageLine(vim) && !IsPackageLine(note)
    requires !IsHeader(base) && !IsHeader(vim) && !IsHeader(note)
    ensures ConfigOf([base, note, "[" + apt + "]", vim]) == map[DefaultSection := [base], apt := [vim]]
  {
    var h := "[" + apt + "]";
    HeaderOf(apt);
    var t1 := [vim];
    var t2 := [h] + t1;
    var t3 := [note] + t2;
    var t4 := [base] + t3;
    var m0: Sections := map[];
    var m1 := m0[DefaultSection := Lookup(m0, DefaultSection) + [base]];
    var m2 := m1[apt := Lookup(m1, apt) + [vim]];
    FoldPackage(base, t3, DefaultSection, m0);
    FoldStep(note, t2, DefaultSection, m1);
    FoldStep(h, t1, DefaultSection, m1);
    FoldPackage(vim, [], apt, m1);
    assert t1 == [vim] + [];
    assert t4 == [base, note, h, vim];
    assert m1 == map[DefaultSection := [base]] by {
      assert Lookup(m0, DefaultSection) + [base] == [base];
    }
    assert Lookup(m1, apt) + [vim] == [vim];
  }

  /** A file that reopens a section and repeats a package: the reopened
      section is appended to and the duplicate is kept. */
  lemma ParseReopenedSection(apt: string, brew: string, vim: string, git: string)
    requires apt != brew
    requires IsPackageLine(vim) && IsPackageLine(git)
    requires !IsHeader(vim) && !IsHeader(git)
    ensures ConfigOf(["[" + apt + "]", vim, "[" + brew + "]", git, "[" + apt + "]", vim])
         == map[apt := [vim, vim], brew := [git]]
  {
    var h1, h2 := "[" + apt + "]", "[" + brew + "]";
    HeaderOf(apt);
    HeaderOf(brew);
    var t1 := [vim];
    var t2 := [h1] + t1;
    var t3 := [git] + t2;
    var t4 := [h2] + t3;
    var t5 := [vim] + t4;
    var t6 := [h1] + t5;
    var m0: Sections := map[];
    var m1 := m0[apt := Lookup(m0, apt) + [vim]];
    var m2 := m1[brew := Lookup(m1, brew) + [git]];
    var m3 := m2[apt := Lookup(m2, apt) + [vim]];
    FoldStep(h1, t5, DefaultSection, m0);
    FoldPackage(vim, t4, apt, m0);
    FoldStep(h2, t3, apt, m1);
    FoldPackage(git, t2, brew, m1);
    FoldStep(h1, t1, brew, m2);
    FoldPackage(vim, [], apt, m2);
    assert t1 == [vim] + [];
    assert t6 == [h1, vim, h2, git, h1, vim];
    assert m1 == map[apt := [vim]] by {
      assert Lookup(m0, apt) + [vim] == [vim];
    }
    assert m2 == map[apt := [vim], brew := [git]] by {
      assert Lookup(m1, brew) + [git] == [git];
    }
    assert Lookup(m2, apt) + [vim] == [vim, vim];
    assert m3 == map[apt := [vim, vim], brew := [git]];
  }

  /** A package line in front of the fold's remaining lines is appended to
      the current section. */
  lemma FoldPackage(line: string, rest: seq<string>, section: string, acc: Sections)
    requires IsPackageLine(line) && !IsHeader(line)
    ensures Fold([line] + rest, section, acc) == Fold(rest, section, acc[section := Lookup(acc, section) + [line]])
  {
    assert ([line] + rest)[0] == line && ([line] + rest)[1..] == rest;
  }

  /** One line in front of the fold's remaining lines, when that line is a
      header or neither a header nor a package line. */
  lemma FoldStep(line: string, rest: seq<string>, section: string, acc: Sections)
    requires IsHeader(line) || !IsPackageLine(line)
    ensures Fold([line] + rest, section, acc)
         == Fold(rest, if IsHeader(line) then SectionName(line) else section, acc)
  {
    assert ([line] + rest)[0] == line && ([line] + rest)[1..] == rest;
  }
}
