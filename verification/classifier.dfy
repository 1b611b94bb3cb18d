/**
 Which directory entries become verification candidates: the archive suffix
 filter, the multi-volume RAR rule that admits only the first part, and the
 scan that turns accepted entries into a path to modification-time snapshot.
 */
module Classifier {
  import opened Text
  import opened Records

  /**
   The regular-expression search `part(\d+)\.rar$` on a lower-cased name
   matches with digit group `d`. `$` matches at the very end and also just
   before one final newline.
   */
  ghost predicate VolumeMatch(name: string, d: string)
  {
    && |d| > 0
    && AllDigits(d)
    && (EndsWith(name, "part" + d + ".rar") || EndsWith(name, "part" + d + ".rar\n"))
  }

  /** The longest run of digits `s` ends with. */
  function TrailingDigits(s: string): (d: string)
    ensures AllDigits(d) && EndsWith(s, d)
    ensures |d| == |s| || !IsDigit(s[|s| - |d| - 1])
  {
    if |s| > 0 && IsDigit(s[|s| - 1]) then
      var init := s[..|s| - 1];
      var d := TrailingDigits(init);
      var k := |init| - |d|;
      assert init[k..] == d;
      assert s[k..] == init[k..] + [s[|s| - 1]];
      assert k == 0 || s[k - 1] == init[k - 1];
      d + [s[|s| - 1]]
    else []
  }

  /** The name with one final newline removed: the text `$` anchors to. */
  function Core(name: string): (core: string)
    ensures core == name || name == core + "\n"
  {
    if |name| > 0 && name[|name| - 1] == '\n' then name[..|name| - 1] else name
  }

  /** The digit group of `part(\d+)\.rar$` in a lower-cased name, if the search matches. */
  function VolumeDigits(name: string): (r: Option<string>)
    ensures r.Some? ==> VolumeMatch(name, r.value)
  {
    var core := Core(name);
    if !EndsWith(core, ".rar") then None
    else
      var stem := core[..|core| - 4];
      var d := TrailingDigits(stem);
      if |d| > 0 && EndsWith(stem[..|stem| - |d|], "part") then
        MatchFromParts(name, core, stem, d);
        Some(d)
      else None
  }

  lemma MatchFromParts(name: string, core: string, stem: string, d: string)
    requires core == Core(name) && EndsWith(core, ".rar") && stem == core[..|core| - 4]
    requires |d| > 0 && AllDigits(d) && EndsWith(stem, d) && EndsWith(stem[..|stem| - |d|], "part")
    ensures VolumeMatch(name, d)
  {
    var pat := "part" + d + ".rar";
    var lead := PatternAtEnd(core, stem, d);
    if core == name {
      EndsWithAppended(lead, pat);
    } else {
      assert name == lead + (pat + "\n");
      EndsWithAppended(lead, pat + "\n");
    }
  }

  lemma EndsWithAppended(s: string, t: string)
    ensures EndsWith(s + t, t)
  {
    assert (s + t)[|s|..] == t;
  }

  /** A name ending in `.rar` whose stem ends in `part` + `d` is some text followed by `part` + `d` + `.rar`. */
  lemma PatternAtEnd(core: string, stem: string, d: string) returns (lead: string)
    requires EndsWith(core, ".rar") && stem == core[..|core| - 4]
    requires EndsWith(stem, d) && EndsWith(stem[..|stem| - |d|], "part")
    ensures core == lead + ("part" + d + ".rar")
  {
    var k := |stem| - |d|;
    var pre := stem[..k];
    lead := pre[..k - 4];
    assert core == stem + ".rar";
    assert stem == pre + d;
    assert pre == lead + "part";
  }

  /** A name matching with group `d` leaves, after the newline and `.rar` are cut, a stem ending in `part` + `d`. */
  lemma StemOfMatch(name: string, d: string) returns (stem: string)
    requires VolumeMatch(name, d)
    ensures EndsWith(Core(name), ".rar") && stem == Core(name)[..|Core(name)| - 4]
    ensures EndsWith(stem, "part" + d)
  {
    var lead := CoreOfMatch(name, "part" + d);
    stem := StemOfCore(Core(name), lead, "part" + d);
  }

  /** A name ending in `pd` + `.rar`, possibly followed by a newline, anchors `$` right after `.rar`. */
  lemma CoreOfMatch(name: string, pd: string) returns (lead: string)
    requires EndsWith(name, pd + ".rar") || EndsWith(name, pd + ".rar\n")
    ensures Core(name) == (lead + pd) + ".rar"
  {
    if EndsWith(name, pd + ".rar") {
      lead := SplitAtSuffix(name, pd + ".rar");
      assert name == (lead + pd) + ".rar";
      CoreOf(name, (lead + pd) + ".rar");
    } else {
      lead := SplitAtSuffix(name, pd + ".rar\n");
      assert name == ((lead + pd) + ".rar") + "\n";
      CoreOf(name, (lead + pd) + ".rar");
    }
  }

  lemma StemOfCore(core: string, lead: string, pd: string) returns (stem: string)
    requires core == (lead + pd) + ".rar"
    ensures EndsWith(core, ".rar") && stem == core[..|core| - 4]
    ensures EndsWith(stem, pd)
  {
    EndsWithAppended(lead + pd, ".rar");
    stem := core[..|core| - 4];
    assert stem == lead + pd;
    EndsWithAppended(lead, pd);
  }

  /** The text `$` anchors to, for a name that is `body`, possibly with one newline added. */
  lemma CoreOf(name: string, body: string)
    requires |body| > 0 && body[|body| - 1] == 'r'
    requires name == body || name == body + "\n"
    ensures Core(name) == body
  {
    if name != body {
      assert name[..|name| - 1] == body;
    }
  }

  lemma SplitAtSuffix(s: string, t: string) returns (lead: string)
    requires EndsWith(s, t)
    ensures s == lead + t
  {
    lead := s[..|s| - |t|];
    assert s == s[..|s| - |t|] + s[|s| - |t|..];
  }

  /** In a stem ending with `part` + digits, the trailing digit run is exactly those digits. */
  lemma TrailingDigitsAfterPart(stem: string, d: string)
    requires |d| > 0 && AllDigits(d) && EndsWith(stem, "part" + d)
    ensures TrailingDigits(stem) == d
    ensures EndsWith(stem[..|stem| - |d|], "part")
  {
    var k := |stem| - |d|;
    PartThenDigits(stem, d);
    TrailingRun(stem, d, k);
  }

  /** A stem ending with `part` + `d` splits as a stem ending in `part`, then `d`. */
  lemma PartThenDigits(stem: string, d: string)
    requires EndsWith(stem, "part" + d)
    ensures stem[|stem| - |d| - 1] == 't'
    ensures stem[|stem| - |d|..] == d
    ensures EndsWith(stem[..|stem| - |d|], "part")
  {
    var k := |stem| - |d|;
    var pd := "part" + d;
    assert stem[k - 4..] == pd;
    assert stem[k - 1] == pd[3];
    assert stem[k..] == stem[k - 4..][4..] == pd[4..] == d;
    assert stem[..k][k - 4..] == stem[k - 4..][..4] == pd[..4];
  }

  /** Digits `d` closing a string, after a non-digit, are its whole trailing digit run. */
  lemma TrailingRun(s: string, d: string, k: int)
    requires 0 < k && k == |s| - |d| && AllDigits(d)
    requires !IsDigit(s[k - 1]) && s[k..] == d
    ensures TrailingDigits(s) == d
  {
    var t := TrailingDigits(s);
    var m := |s| - |t|;
    if m < k {
      SuffixIndex(s, t, k - 1);
      assert false;
    } else if m > k {
      assert false;
    }
    assert t == s[m..];
  }

  lemma SuffixIndex(s: string, t: string, j: int)
    requires EndsWith(s, t) && |s| - |t| <= j < |s|
    ensures s[j] == t[j - (|s| - |t|)]
  {
    assert s[|s| - |t|..][j - (|s| - |t|)] == s[j];
  }

  /** Any match of the search is the one `VolumeDigits` reports. */
  lemma VolumeDigitsComplete(name: string, d: string)
    requires VolumeMatch(name, d)
    ensures VolumeDigits(name) == Some(d)
  {
    var stem := StemOfMatch(name, d);
    TrailingDigitsAfterPart(stem, d);
    var core := Core(name);
    assert EndsWith(core, ".rar") && stem == core[..|core| - 4];
    assert TrailingDigits(stem) == d && |d| > 0;
  }

  /**
   `is_first_volume`: the part number of a `partN.rar` name, with its leading
   zeros stripped and an empty remainder read as zero, must be one; a name
   without a part number counts as a first volume.
   */
  function IsFirstVolume(filename: string): (first: bool)
    ensures VolumeDigits(LowerString(filename)).None? ==> first
    ensures VolumeDigits(LowerString(filename)).Some? ==>
      (first <==> StripLeadingZeros(VolumeDigits(LowerString(filename)).value) == "1")
  {
    match VolumeDigits(LowerString(filename))
    case None => true
    case Some(d) =>
      ParseDigitsIsOne(d);
      ParseDigits(d) == 1
  }

  /** A name is a first volume exactly when every part number the search finds in it is 1 up to leading zeros. */
  lemma IsFirstVolumeMeaning(filename: string)
    ensures IsFirstVolume(filename) <==>
      forall d :: VolumeMatch(LowerString(filename), d) ==> StripLeadingZeros(d) == "1"
  {
    var lowered := LowerString(filename);
    match VolumeDigits(lowered)
    case None =>
      forall d | VolumeMatch(lowered, d)
        ensures false
      {
        VolumeDigitsComplete(lowered, d);
      }
    case Some(d) =>
      ParseDigitsIsOne(d);
      forall d' | VolumeMatch(lowered, d')
        ensures d' == d
      {
        VolumeDigitsComplete(lowered, d');
      }
  }

  /** The archive suffixes always scanned. */
  const ArchiveSuffixes: set<string> := {".zip", ".7z", ".001", ".rar"}

  /** The suffix set of one scan: executables join only when asked for. */
  function Extensions(checkExe: bool): set<string>
  {
    if checkExe then ArchiveSuffixes + {".exe"} else ArchiveSuffixes
  }

  /** The filter of `scan_physical_files`, on an entry's suffix and file name. */
  function IsCandidate(suffix: string, name: string, checkExe: bool): (accepted: bool)
    ensures accepted <==>
      || LowerString(suffix) in {".zip", ".7z", ".001"}
      || (LowerString(suffix) == ".exe" && checkExe)
      || (LowerString(suffix) == ".rar" && IsFirstVolume(name))
  {
    var s := LowerString(suffix);
    if s !in Extensions(checkExe) then false
    else if s == ".rar" && !IsFirstVolume(name) then false
    else true
  }

  /** The volume test is consulted for `.rar` suffixes only. */
  lemma VolumeTestOnlyForRar(suffix: string, name1: string, name2: string, checkExe: bool)
    requires LowerString(suffix) != ".rar"
    ensures IsCandidate(suffix, name1, checkExe) == IsCandidate(suffix, name2, checkExe)
  {
  }

  /** A name carrying part number `d` is a first volume exactly when `d` is 1 up to leading zeros. */
  lemma FirstVolumeOfPart(filename: string, d: string)
    requires VolumeMatch(LowerString(filename), d)
    ensures IsFirstVolume(filename) <==> StripLeadingZeros(d) == "1"
  {
    VolumeDigitsComplete(LowerString(filename), d);
    ParseDigitsIsOne(d);
  }

  /** Lower-case names `prefix` + `part` + `d` + `.rar` are first volumes exactly when `d` is 1 up to leading zeros. */
  lemma FirstVolumeOfPartName(prefix: string, d: string)
    requires |d| > 0 && AllDigits(d) && NoUpper(prefix)
    ensures IsFirstVolume(prefix + ("part" + d + ".rar")) <==> StripLeadingZeros(d) == "1"
  {
    var pat := "part" + d + ".rar";
    var name := prefix + pat;
    assert NoUpper(name) by {
      forall i | 0 <= i < |name|
        ensures !('A' <= name[i] <= 'Z')
      {
        if i >= |prefix| {
          var j := i - |prefix|;
          assert name[i] == pat[j];
          if 4 <= j < 4 + |d| {
            assert pat[j] == d[j - 4];
          }
        }
      }
    }
    LowerNoUpper(name);
    assert name[|prefix|..] == pat;
    FirstVolumeOfPart(name, d);
  }

  /** The volume test sees only the lower-cased name. */
  lemma FirstVolumeIgnoresCase(a: string, b: string)
    requires LowerString(a) == LowerString(b)
    ensures IsFirstVolume(a) == IsFirstVolume(b)
  {
  }

  /** Part numbers 1, 01 and 001 after any lower-case base name mark a first volume. */
  lemma PartOneIsFirstVolume(base: string)
    requires NoUpper(base)
    ensures IsFirstVolume(base + ("part" + "1" + ".rar"))
    ensures IsFirstVolume(base + ("part" + "01" + ".rar"))
    ensures IsFirstVolume(base + ("part" + "001" + ".rar"))
  {
    PartOneFacts();
    FirstVolumeOfPartName(base, "1");
    FirstVolumeOfPartName(base, "01");
    FirstVolumeOfPartName(base, "001");
  }

  /** Part numbers 2, 02 and 0 after any lower-case base name are skipped. */
  lemma OtherPartsAreNotFirstVolumes(base: string)
    requires NoUpper(base)
    ensures !IsFirstVolume(base + ("part" + "2" + ".rar"))
    ensures !IsFirstVolume(base + ("part" + "02" + ".rar"))
    ensures !IsFirstVolume(base + ("part" + "0" + ".rar"))
  {
    OtherPartFacts();
    OtherPartStrips();
    FirstVolumeOfPartName(base, "2");
    FirstVolumeOfPartName(base, "02");
    FirstVolumeOfPartName(base, "0");
  }

  lemma PartOneFacts()
    ensures AllDigits("1") && AllDigits("01") && AllDigits("001")
    ensures StripLeadingZeros("1") == "1" && StripLeadingZeros("01") == "1" && StripLeadingZeros("001") == "1"
  {
    var one, zeroOne, zeroZeroOne := "1", "01", "001";
    assert one[0] != '0';
    assert StripLeadingZeros(one) == one;
    assert zeroOne[0] == '0' && zeroOne[1..] == one;
    assert StripLeadingZeros(zeroOne) == StripLeadingZeros(one);
    assert zeroZeroOne[0] == '0' && zeroZeroOne[1..] == zeroOne;
    assert StripLeadingZeros(zeroZeroOne) == StripLeadingZeros(zeroOne);
  }

  lemma OtherPartFacts()
    ensures AllDigits("2") && AllDigits("02") && AllDigits("0")
  {
    assert IsDigit('0') && IsDigit('2');
  }

  lemma OtherPartStrips()
    ensures StripLeadingZeros("2") == "2" && StripLeadingZeros("02") == "2" && StripLeadingZeros("0") == ""
  {
    var two, zeroTwo, zero := "2", "02", "0";
    assert two[0] != '0';
    assert StripLeadingZeros(two) == two;
    assert zeroTwo[0] == '0' && zeroTwo[1..] == two;
    assert StripLeadingZeros(zeroTwo) == StripLeadingZeros(two);
    assert zero[0] == '0' && zero[1..] == "";
    assert StripLeadingZeros(zero) == StripLeadingZeros("");
  }

  /** One entry the directory walk yields: resolved path, suffix, file name, mtime in nanoseconds. */
  datatype Entry = Entry(path: string, suffix: string, name: string, mtime: int)

  predicate Accepted(e: Entry, checkExe: bool)
  {
    IsCandidate(e.suffix, e.name, checkExe)
  }

  /** No entry after index `i` is a kept entry for the same path. */
  ghost predicate LastKeptFor(entries: seq<Entry>, keep: Entry -> bool, i: int)
    requires 0 <= i < |entries|
  {
    forall j :: i < j < |entries| && entries[j].path == entries[i].path ==> !keep(entries[j])
  }

  /** The path to mtime mapping of the kept entries, filled in walk order. */
  function Collect(entries: seq<Entry>, keep: Entry -> bool): (found: Snapshot)
    ensures forall p :: p in found <==>
      exists i :: 0 <= i < |entries| && entries[i].path == p && keep(entries[i])
  {
    if |entries| == 0 then map[]
    else
      var n := |entries| - 1;
      var init := entries[..n];
      var found := Collect(init, keep);
      assert forall i :: 0 <= i < n ==> init[i] == entries[i];
      if keep(entries[n]) then found[entries[n].path := entries[n].mtime] else found
  }

  /** A later kept entry for the same path overwrites the mtime: the last one wins. */
  lemma {:induction false} CollectKeepsLast(entries: seq<Entry>, keep: Entry -> bool, i: int)
    requires 0 <= i < |entries| && keep(entries[i]) && LastKeptFor(entries, keep, i)
    ensures entries[i].path in Collect(entries, keep)
    ensures Collect(entries, keep)[entries[i].path] == entries[i].mtime
    decreases |entries|
  {
    var n := |entries| - 1;
    var init := entries[..n];
    CollectLast(entries, keep);
    if i < n {
      LastKeptForPrefix(entries, keep, i);
      CollectKeepsLast(init, keep, i);
      var found := Collect(init, keep);
      if keep(entries[n]) {
        assert entries[n].path != entries[i].path;
        assert found[entries[n].path := entries[n].mtime][entries[i].path] == found[entries[i].path];
      }
    }
  }

  lemma LastKeptForPrefix(entries: seq<Entry>, keep: Entry -> bool, i: int)
    requires 0 <= i < |entries| - 1 && LastKeptFor(entries, keep, i)
    ensures entries[..|entries| - 1][i] == entries[i]
    ensures LastKeptFor(entries[..|entries| - 1], keep, i)
  {
    var init := entries[..|entries| - 1];
    forall j | i < j < |init| && init[j].path == init[i].path
      ensures !keep(init[j])
    {
      assert init[j] == entries[j];
    }
  }

  lemma CollectLast(entries: seq<Entry>, keep: Entry -> bool)
    requires |entries| > 0
    ensures var n := |entries| - 1;
      Collect(entries, keep) ==
        if keep(entries[n]) then Collect(entries[..n], keep)[entries[n].path := entries[n].mtime]
        else Collect(entries[..n], keep)
  {
  }

  /**
   The snapshot `scan_physical_files` builds from the walk's entries: exactly
   the paths of accepted entries.
   */
  function Scan(entries: seq<Entry>, checkExe: bool): (found: Snapshot)
    ensures forall p :: p in found <==>
      exists i :: 0 <= i < |entries| && entries[i].path == p && Accepted(entries[i], checkExe)
  {
    Collect(entries, e => Accepted(e, checkExe))
  }

  /** Two entries resolving to one path: the mtime of the last accepted one is kept. */
  lemma ScanKeepsLastMtime(entries: seq<Entry>, checkExe: bool, i: int)
    requires 0 <= i < |entries| && Accepted(entries[i], checkExe)
    requires forall j :: i < j < |entries| && entries[j].path == entries[i].path ==> !Accepted(entries[j], checkExe)
    ensures entries[i].path in Scan(entries, checkExe)
    ensures Scan(entries, checkExe)[entries[i].path] == entries[i].mtime
  {
    CollectKeepsLast(entries, e => Accepted(e, checkExe), i);
  }
}
