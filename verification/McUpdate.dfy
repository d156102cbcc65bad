/** mcupdate.c: update instructions from the file list of an old and of the latest version of a
    modpack, followed by the manual changes. */
module McUpdate {
  import opened Basics
  import opened Text
  import opened UpdateChanges

  datatype Kind = Regular | Directory | Other | Unstatable

  /** The files below /DATA, and what stat says about a path. */
  datatype Disk = Disk(files: map<string, string>, kinds: string -> Kind)

  // ---------------------------------------------------------------- comparing the two lists

  predicate IsEntry(l: string) {
    l != "." && l != ""
  }

  /** The entries of `lines` that `others` lacks, in order. */
  function Missing(lines: seq<string>, others: seq<string>): seq<string> {
    if lines == [] then []
    else (if IsEntry(lines[0]) && lines[0] !in others then [lines[0]] else []) + Missing(lines[1..], others)
  }

  lemma {:induction false} InMissing(lines: seq<string>, others: seq<string>, l: string)
    ensures l in Missing(lines, others) <==> l in lines && IsEntry(l) && l !in others
  {
    if lines != [] {
      InMissing(lines[1..], others, l);
      assert lines == [lines[0]] + lines[1..];
    }
  }

  lemma {:induction false} MissingSnoc(lines: seq<string>, l: string, others: seq<string>)
    ensures Missing(lines + [l], others) ==
            if IsEntry(l) && l !in others then Missing(lines, others) + [l] else Missing(lines, others)
  {
    if lines == [] {
      assert lines + [l] == [l] && [l][1..] == [];
    } else {
      assert (lines + [l])[1..] == lines[1..] + [l];
      MissingSnoc(lines[1..], l, others);
    }
  }

  /** The first loop, before the markers are put in. */
  method CollectRemovals(list1: string, list2: string) returns (instr: string)
    ensures instr == JoinLines(Missing(Lines(list1), Lines(list2)))
  {
    hide Lines, JoinLines, Missing;
    instr := "";
    var pos := 0;
    ghost var seen: seq<string> := [];
    assert list1[0..] == list1;
    NothingMissing(Lines(list2));
    while true
      invariant 0 <= pos <= |list1|
      invariant seen + Lines(list1[pos..]) == Lines(list1)
      invariant instr == JoinLines(Missing(seen, Lines(list2)))
      decreases |list1| - pos
    {
      var found, file, next := GetLine(list1, pos);
      if !found {
        assert seen + [] == seen;
        return;
      }
      MissingSnoc(seen, file, Lines(list2));
      var contained := ContainsLine(list2, file);
      if !(file == "." || file == "" || contained) {
        AppendLine(Missing(seen, Lines(list2)), file);
        instr := instr + (file + [LF]);
      }
      seen, pos := seen + [file], next;
    }
  }

  lemma NothingMissing(others: seq<string>)
    ensures JoinLines(Missing([], others)) == ""
  {
  }

  const DOT_SLASH := "./"
  const REMOVE := "-umods/"

  function AddPrefix(kind: Kind): string {
    match kind
    case Regular => "+fmods/"
    case Directory => "+dmods/"
    case _ => "+umods/"
  }

  function ModPath(modpack: string, file: string): string {
    "/" + modpack + "/mods/" + file
  }

  /** The line written for an entry of the new list that the old one lacks. */
  function AdditionLine(disk: Disk, modpack: string, file: string): string {
    var path := ModPath(modpack, file);
    if disk.kinds(path).Unstatable? then "# unstatable file: " + path
    else Replace(file, DOT_SLASH, AddPrefix(disk.kinds(path)))
  }

  function AdditionLines(disk: Disk, modpack: string, files: seq<string>): (r: seq<string>)
    ensures |r| == |files| && forall i :: 0 <= i < |files| ==> r[i] == AdditionLine(disk, modpack, files[i])
  {
    seq(|files|, i requires 0 <= i < |files| => AdditionLine(disk, modpack, files[i]))
  }

  /** The second loop, which writes its lines complete. */
  method CollectAdditions(disk: Disk, modpack: string, list1: string, list2: string) returns (instr: string)
    ensures instr == JoinLines(AdditionLines(disk, modpack, Missing(Lines(list2), Lines(list1))))
  {
    hide Lines, JoinLines, Missing, AdditionLine;
    instr := "";
    var pos := 0;
    ghost var seen: seq<string>, others := [], Lines(list1);
    assert list2[0..] == list2;
    NothingAdded(disk, modpack, others);
    while true
      invariant 0 <= pos <= |list2|
      invariant seen + Lines(list2[pos..]) == Lines(list2)
      invariant instr == JoinLines(AdditionLines(disk, modpack, Missing(seen, others)))
      decreases |list2| - pos
    {
      var found, file, next := GetLine(list2, pos);
      if !found {
        assert seen + [] == seen;
        return;
      }
      MissingSnoc(seen, file, others);
      var contained := ContainsLine(list1, file);
      if !(file == "." || file == "" || contained) {
        var line := WriteAddition(disk, modpack, file);
        AdditionSnoc(disk, modpack, Missing(seen, others), file);
        AppendLine(AdditionLines(disk, modpack, Missing(seen, others)), line);
        instr := instr + (line + [LF]);
      }
      seen, pos := seen + [file], next;
    }
  }

  method WriteAddition(disk: Disk, modpack: string, file: string) returns (line: string)
    ensures line == AdditionLine(disk, modpack, file)
  {
    var path := ModPath(modpack, file);
    var kind := disk.kinds(path);
    if kind.Unstatable? {
      line := "# unstatable file: " + path;
    } else {
      line := ReplaceText(file, DOT_SLASH, AddPrefix(kind));
    }
  }

  lemma NothingAdded(disk: Disk, modpack: string, others: seq<string>)
    ensures JoinLines(AdditionLines(disk, modpack, Missing([], others))) == ""
  {
  }

  lemma AdditionSnoc(disk: Disk, modpack: string, files: seq<string>, file: string)
    ensures AdditionLines(disk, modpack, files + [file]) == AdditionLines(disk, modpack, files) + [AdditionLine(disk, modpack, file)]
  {
  }

  // ---------------------------------------------------------------- what the instructions say

  /** A path of the list, with `./` in front and nowhere else, on one line. */
  predicate ProperEntry(l: string) {
    && LF !in l && |l| > 2 && l[..2] == DOT_SLASH
    && forall i :: 0 < i < |l| - 1 ==> !(l[i] == '.' && l[i + 1] == '/')
  }

  lemma DotSlashAt(s: string, i: int)
    ensures OccursAt(s, DOT_SLASH, i) <==> 0 <= i < |s| - 1 && s[i] == '.' && s[i + 1] == '/'
  {
    if 0 <= i < |s| - 1 {
      assert s[i..i + 2] == [s[i], s[i + 1]];
    }
  }

  /** Marking a proper entry replaces its `./` and nothing else. */
  lemma MarkEntry(l: string, prefix: string)
    requires ProperEntry(l)
    ensures Replace(l, DOT_SLASH, prefix) == prefix + Bare(l)
  {
    assert l[..2] == [l[0], l[1]];
    DotSlashAt(l, 0);
    LocateIs(l, DOT_SLASH, 0);
    ReplaceHit(l, DOT_SLASH, prefix, 0);
    var rest := l[2..];
    forall i ensures !OccursAt(rest, DOT_SLASH, i) {
      DotSlashAt(rest, i);
    }
    ReplaceAbsent(rest, DOT_SLASH, prefix);
  }

  /** An entry without its `./`. */
  function Bare(f: string): string {
    if |f| < 2 then "" else f[2..]
  }

  function MarkAll(files: seq<string>, prefix: string -> string): (r: seq<string>)
    ensures |r| == |files| && forall i :: 0 <= i < |files| ==> r[i] == prefix(files[i]) + Bare(files[i])
  {
    seq(|files|, i requires 0 <= i < |files| => prefix(files[i]) + Bare(files[i]))
  }

  ghost predicate ProperEntries(files: seq<string>) {
    forall f :: f in files ==> ProperEntry(f)
  }

  lemma MarkedRemovals(files: seq<string>)
    requires ProperEntries(files)
    ensures Replace(JoinLines(files), DOT_SLASH, REMOVE) == JoinLines(MarkAll(files, _ => REMOVE))
  {
    hide Replace, JoinLines, ProperEntry;
    assert LineTexts(files) by {
      forall l | l in files ensures LF !in l {
        EntryOnOneLine(l);
      }
    }
    ReplaceInLines(files, DOT_SLASH, REMOVE);
    var marked := MapLines(files, l => Replace(l, DOT_SLASH, REMOVE));
    forall i | 0 <= i < |files| ensures marked[i] == REMOVE + Bare(files[i]) {
      assert files[i] in files;
      MarkEntry(files[i], REMOVE);
    }
    assert marked == MarkAll(files, _ => REMOVE);
  }

  lemma EntryOnOneLine(l: string)
    requires ProperEntry(l)
    ensures LF !in l
  {
  }

  ghost predicate Statable(disk: Disk, modpack: string, files: seq<string>) {
    forall f :: f in files ==> !disk.kinds(ModPath(modpack, f)).Unstatable?
  }

  function PrefixOf(disk: Disk, modpack: string): string -> string {
    f => AddPrefix(disk.kinds(ModPath(modpack, f)))
  }

  lemma MarkedAdditions(disk: Disk, modpack: string, files: seq<string>)
    requires ProperEntries(files) && Statable(disk, modpack, files)
    ensures AdditionLines(disk, modpack, files) == MarkAll(files, PrefixOf(disk, modpack))
  {
    hide Replace, ModPath;
    forall i | 0 <= i < |files|
      ensures AdditionLine(disk, modpack, files[i]) == PrefixOf(disk, modpack)(files[i]) + Bare(files[i])
    {
      assert files[i] in files;
      MarkEntry(files[i], PrefixOf(disk, modpack)(files[i]));
    }
  }

  /** The instruction lines, from the lists alone: removals first, then additions, each in list order. */
  ghost function DiffLines(disk: Disk, modpack: string, old': seq<string>, new': seq<string>): seq<string>
  {
    MarkAll(Missing(old', new'), _ => REMOVE) + MarkAll(Missing(new', old'), PrefixOf(disk, modpack))
  }

  function DiffText(disk: Disk, modpack: string, list1: string, list2: string): string {
    Replace(JoinLines(Missing(Lines(list1), Lines(list2))), DOT_SLASH, REMOVE) +
    JoinLines(AdditionLines(disk, modpack, Missing(Lines(list2), Lines(list1))))
  }

  /** The generated text is exactly those lines. */
  lemma DiffTextIsLines(disk: Disk, modpack: string, list1: string, list2: string)
    requires ProperEntries(Missing(Lines(list1), Lines(list2))) && ProperEntries(Missing(Lines(list2), Lines(list1)))
    requires Statable(disk, modpack, Missing(Lines(list2), Lines(list1)))
    ensures DiffText(disk, modpack, list1, list2) == JoinLines(DiffLines(disk, modpack, Lines(list1), Lines(list2)))
  {
    hide Replace, JoinLines, Lines, Missing, AdditionLine;
    var gone, come := Missing(Lines(list1), Lines(list2)), Missing(Lines(list2), Lines(list1));
    MarkedRemovals(gone);
    MarkedAdditions(disk, modpack, come);
    JoinConcat(MarkAll(gone, _ => REMOVE), MarkAll(come, PrefixOf(disk, modpack)));
  }

  // ---------------------------------------------------------------- what they do to a client

  /** How a client carries out one instruction on the set of files it has. */
  function ApplyLine(s: set<string>, line: string): set<string> {
    if |line| < 7 then s
    else if line[..7] == REMOVE then s - {DOT_SLASH + line[7..]}
    else if line[0] == PLUS && line[2..7] == "mods/" then s + {DOT_SLASH + line[7..]}
    else s
  }

  function ApplyLines(s: set<string>, lines: seq<string>): set<string>
    decreases |lines|
  {
    if lines == [] then s else ApplyLines(ApplyLine(s, lines[0]), lines[1..])
  }

  lemma {:induction false} ApplyConcat(s: set<string>, a: seq<string>, b: seq<string>)
    ensures ApplyLines(s, a + b) == ApplyLines(ApplyLines(s, a), b)
    decreases |a|
  {
    if a == [] {
      assert a + b == b;
    } else {
      assert (a + b)[1..] == a[1..] + b;
      ApplyConcat(ApplyLine(s, a[0]), a[1..], b);
    }
  }

  lemma ApplyMarked(s: set<string>, f: string, kind: Kind)
    requires ProperEntry(f)
    ensures ApplyLine(s, REMOVE + Bare(f)) == s - {f}
    ensures ApplyLine(s, AddPrefix(kind) + Bare(f)) == s + {f}
  {
    assert f == DOT_SLASH + Bare(f);
    var r, a := REMOVE + Bare(f), AddPrefix(kind) + Bare(f);
    assert r[..7] == REMOVE && r[7..] == Bare(f);
    assert a[..7] == AddPrefix(kind) && a[7..] == Bare(f);
    assert a[..7][0] == PLUS && a[2..7] == a[..7][2..] == "mods/";
    assert a[..7][0] != REMOVE[0];
  }

  lemma {:induction false} ApplyRemovals(s: set<string>, files: seq<string>)
    requires ProperEntries(files)
    ensures ApplyLines(s, MarkAll(files, _ => REMOVE)) == s - set f | f in files
    decreases |files|
  {
    hide ApplyLine, ProperEntry;
    if files != [] {
      var marked, rest := MarkAll(files, _ => REMOVE), files[1..];
      assert files[0] in files && forall f :: f in files <==> f == files[0] || f in rest;
      ApplyMarked(s, files[0], Regular);
      assert marked[1..] == MarkAll(rest, _ => REMOVE);
      ApplyRemovals(s - {files[0]}, rest);
    }
  }

  lemma {:induction false} ApplyAdditions(s: set<string>, files: seq<string>, disk: Disk, modpack: string)
    requires ProperEntries(files)
    ensures ApplyLines(s, MarkAll(files, PrefixOf(disk, modpack))) == s + set f | f in files
    decreases |files|
  {
    hide ApplyLine, ProperEntry, AddPrefix;
    if files != [] {
      var marked, rest := MarkAll(files, PrefixOf(disk, modpack)), files[1..];
      assert files[0] in files && forall f :: f in files <==> f == files[0] || f in rest;
      ApplyMarked(s, files[0], disk.kinds(ModPath(modpack, files[0])));
      assert marked[1..] == MarkAll(rest, PrefixOf(disk, modpack));
      ApplyAdditions(s + {files[0]}, rest, disk, modpack);
    }
  }

  ghost function Entries(lines: seq<string>): set<string> {
    set l | l in lines && IsEntry(l)
  }

  lemma EntriesDiffer(old': seq<string>, new': seq<string>)
    ensures (Entries(old') - (set f | f in Missing(old', new'))) + (set f | f in Missing(new', old')) == Entries(new')
  {
    hide Missing;
    forall l ensures l in Missing(old', new') <==> l in old' && IsEntry(l) && l !in new' {
      InMissing(old', new', l);
    }
    forall l ensures l in Missing(new', old') <==> l in new' && IsEntry(l) && l !in old' {
      InMissing(new', old', l);
    }
  }

  /** Carried out on the files of the old version, the instructions give the files of the new one. */
  lemma DiffCorrect(disk: Disk, modpack: string, old': seq<string>, new': seq<string>)
    requires ProperEntries(Missing(old', new')) && ProperEntries(Missing(new', old'))
    ensures ApplyLines(Entries(old'), DiffLines(disk, modpack, old', new')) == Entries(new')
  {
    hide ApplyLines, Missing, ProperEntry;
    var gone, come := Missing(old', new'), Missing(new', old');
    ApplyConcat(Entries(old'), MarkAll(gone, _ => REMOVE), MarkAll(come, PrefixOf(disk, modpack)));
    ApplyRemovals(Entries(old'), gone);
    ApplyAdditions(Entries(old') - (set f | f in gone), come, disk, modpack);
    EntriesDiffer(old', new');
  }

  // ---------------------------------------------------------------- the whole instructions

  lemma MarkedLine(files: seq<string>, prefix: string -> string, l: string) returns (f: string)
    requires l in MarkAll(files, prefix)
    ensures f in files && l == prefix(f) + Bare(f)
  {
    var i :| 0 <= i < |files| && MarkAll(files, prefix)[i] == l;
    f := files[i];
  }

  lemma TailOf(c: char, path: string, prefix: string, rest: string)
    requires |prefix| == 7 && [c] + path == prefix + rest
    ensures |path| >= 6 && path[6..] == rest
  {
    assert |[c] + path| == |prefix + rest|;
    assert ([c] + path)[7..] == path[6..] && (prefix + rest)[7..] == rest;
  }

  lemma SamePath(path: string, f: string, g: string, kind: Kind)
    requires ProperEntry(f) && ProperEntry(g)
    requires [MINUS] + path == REMOVE + Bare(f) && [PLUS] + path == AddPrefix(kind) + Bare(g)
    ensures f == g
  {
    TailOf(MINUS, path, REMOVE, Bare(f));
    TailOf(PLUS, path, AddPrefix(kind), Bare(g));
    assert f == f[..2] + Bare(f) && g == g[..2] + Bare(g);
  }

  /** The generated lines mark no path twice, and none as changed. */
  lemma DiffSingle(disk: Disk, modpack: string, old': seq<string>, new': seq<string>, path: string)
    requires ProperEntries(Missing(old', new')) && ProperEntries(Missing(new', old'))
    ensures Single(DiffLines(disk, modpack, old', new'), path)
    ensures [STAR] + path !in DiffLines(disk, modpack, old', new')
  {
    hide Missing, ProperEntry, Bare, AddPrefix;
    var gone, come := Missing(old', new'), Missing(new', old');
    var lines := DiffLines(disk, modpack, old', new');
    forall l | l in lines ensures l != "" && (l[0] == MINUS || l[0] == PLUS) {
      if l in MarkAll(gone, _ => REMOVE) {
        var f := MarkedLine(gone, _ => REMOVE, l);
        RemovalStarts(l, f, Regular);
      } else {
        var g := MarkedLine(come, PrefixOf(disk, modpack), l);
        RemovalStarts(l, g, disk.kinds(ModPath(modpack, g)));
      }
    }
    assert ([STAR] + path)[0] == STAR;
    NotBoth(disk, modpack, old', new', path);
  }

  lemma RemovalStarts(l: string, f: string, kind: Kind)
    ensures l == REMOVE + Bare(f) ==> l != "" && l[0] == MINUS
    ensures l == AddPrefix(kind) + Bare(f) ==> l != "" && l[0] == PLUS
  {
  }

  lemma NotBoth(disk: Disk, modpack: string, old': seq<string>, new': seq<string>, path: string)
    requires ProperEntries(Missing(old', new')) && ProperEntries(Missing(new', old'))
    ensures !([PLUS] + path in DiffLines(disk, modpack, old', new') && [MINUS] + path in DiffLines(disk, modpack, old', new'))
  {
    hide Missing, ProperEntry, Bare, AddPrefix;
    var gone, come := Missing(old', new'), Missing(new', old');
    var lines := DiffLines(disk, modpack, old', new');
    var plus, minus := [PLUS] + path, [MINUS] + path;
    if plus in lines && minus in lines {
      var f, g;
      assert minus !in MarkAll(come, PrefixOf(disk, modpack)) by {
        if minus in MarkAll(come, PrefixOf(disk, modpack)) {
          var x := MarkedLine(come, PrefixOf(disk, modpack), minus);
          RemovalStarts(minus, x, disk.kinds(ModPath(modpack, x)));
        }
      }
      assert plus !in MarkAll(gone, _ => REMOVE) by {
        if plus in MarkAll(gone, _ => REMOVE) {
          var x := MarkedLine(gone, _ => REMOVE, plus);
          RemovalStarts(plus, x, Regular);
        }
      }
      f := MarkedLine(gone, _ => REMOVE, minus);
      g := MarkedLine(come, PrefixOf(disk, modpack), plus);
      SamePath(path, f, g, disk.kinds(ModPath(modpack, g)));
      InMissing(old', new', f);
      InMissing(new', old', g);
    }
  }

  /** The lines of the change list that follow the line of the given version. */
  function ChangesAfter(lines: seq<string>, mark: string): Option<seq<string>> {
    if lines == [] then None
    else if lines[0] == mark then Some(lines[1..])
    else ChangesAfter(lines[1..], mark)
  }

  /** The search for the version line. */
  method FindVersion(list: string, mark: string) returns (pos: Option<nat>)
    ensures pos.None? <==> ChangesAfter(Lines(list), mark).None?
    ensures pos.Some? ==> pos.value <= |list| && ChangesAfter(Lines(list), mark) == Some(Lines(list[pos.value..]))
  {
    hide Lines;
    var p := 0;
    ghost var result := ChangesAfter(Lines(list), mark);
    assert list[0..] == list;
    while true
      invariant p <= |list| && ChangesAfter(Lines(list[p..]), mark) == result
      decreases |list| - p
    {
      var found, line, next := GetLine(list, p);
      if !found {
        return None;
      }
      assert ([line] + Lines(list[next..]))[1..] == Lines(list[next..]);
      if line == mark {
        return Some(next);
      }
      p := next;
    }
  }

  function ListPath(modpack: string, version: string): string {
    "/DATA/LISTFILE/" + modpack + "/" + version
  }

  /** str_fileread: no more than the first `max` bytes are looked at. */
  function FileRead(disk: Disk, path: string, max: nat): (r: Option<string>)
    ensures r.Some? ==> |r.value| <= max && path in disk.files && r.value <= disk.files[path]
    ensures path in disk.files && |disk.files[path]| <= max ==> r == Some(disk.files[path])
  {
    if path !in disk.files then None
    else if |disk.files[path]| > max then Some(disk.files[path][..max])
    else Some(disk.files[path])
  }

  const LIST_MAX := 100000

  /** mcu_get_latest_version. */
  function LatestVersion(disk: Disk, modpack: string): Option<string> {
    var path := "/DATA/VERSION/" + modpack;
    match FileRead(disk, path, 40)
    case None => None
    case Some(text) => Some(Replace(text, [LF], ""))
  }

  datatype Outcome = NoModpack | NoVersion | ListError | Instructions(text: string)

  /** mcu_create_update_instructions, with the meaning of its result codes 1, 2, -1 and 0. */
  function Update(disk: Disk, modpack: string, version: string): Outcome {
    match LatestVersion(disk, modpack)
    case None => NoModpack
    case Some(latest) =>
      var path1, path2, path3 := ListPath(modpack, version), ListPath(modpack, latest), "/DATA/CHANGE/" + modpack;
      var list1, list2, list3 := FileRead(disk, path1, LIST_MAX), FileRead(disk, path2, LIST_MAX), FileRead(disk, path3, LIST_MAX);
      if list1.None? then NoVersion
      else if list2.None? || list3.None? then ListError
      else
        match ChangesAfter(Lines(list3.value), "@" + version)
        case None => ListError
        case Some(changes) => Instructions(TextFold(DiffText(disk, modpack, list1.value, list2.value), changes))
  }

  method CreateUpdateInstructions(disk: Disk, modpack: string, version: string) returns (outcome: Outcome)
    ensures outcome == Update(disk, modpack, version)
  {
    hide TextFold, ChangesAfter, Lines, Missing, JoinLines, AdditionLines, FileRead;
    var current := FileRead(disk, "/DATA/VERSION/" + modpack, 40);
    if current.None? {
      return NoModpack;
    }
    var latest := ReplaceText(current.value, [LF], "");
    var path1, path2, path3 := ListPath(modpack, version), ListPath(modpack, latest), "/DATA/CHANGE/" + modpack;
    var list1 := FileRead(disk, path1, LIST_MAX);
    if list1.None? {
      return NoVersion;
    }
    var list2 := FileRead(disk, path2, LIST_MAX);
    if list2.None? {
      return ListError;
    }
    var instr := CollectRemovals(list1.value, list2.value);
    instr := ReplaceText(instr, DOT_SLASH, REMOVE);
    var additions := CollectAdditions(disk, modpack, list1.value, list2.value);
    instr := instr + additions;
    var list3 := FileRead(disk, path3, LIST_MAX);
    if list3.None? {
      return ListError;
    }
    var pos := FindVersion(list3.value, "@" + version);
    if pos.None? {
      return ListError;
    }
    instr := ApplyChanges(instr, list3.value, pos.value);
    outcome := Instructions(instr);
  }

  lemma MarkedNoLf(f: string, kind: Kind)
    requires ProperEntry(f)
    ensures LF !in REMOVE + Bare(f) && LF !in AddPrefix(kind) + Bare(f)
  {
  }

  lemma DiffLineTexts(disk: Disk, modpack: string, old': seq<string>, new': seq<string>)
    requires ProperEntries(Missing(old', new')) && ProperEntries(Missing(new', old'))
    ensures LineTexts(DiffLines(disk, modpack, old', new'))
  {
    hide Missing, ProperEntry, Bare, AddPrefix;
    var gone, come := Missing(old', new'), Missing(new', old');
    forall l | l in DiffLines(disk, modpack, old', new') ensures LF !in l {
      if l in MarkAll(gone, _ => REMOVE) {
        var f := MarkedLine(gone, _ => REMOVE, l);
        MarkedNoLf(f, Regular);
      } else {
        var g := MarkedLine(come, PrefixOf(disk, modpack), l);
        MarkedNoLf(g, disk.kinds(ModPath(modpack, g)));
      }
    }
  }

  /** End to end: for proper lists, statable new files and changes that hit only their lines, the
      instructions are the diff with the manual changes folded in, and every path carries the one marker
      that the diff and the table give it. */
  lemma UpdateMeaning(disk: Disk, modpack: string, list1: string, list2: string, changes: seq<string>)
    requires ProperEntries(Missing(Lines(list1), Lines(list2))) && ProperEntries(Missing(Lines(list2), Lines(list1)))
    requires Statable(disk, modpack, Missing(Lines(list2), Lines(list1)))
    requires Plain(changes) && AllHit(DiffLines(disk, modpack, Lines(list1), Lines(list2)), changes)
    ensures var diff := DiffLines(disk, modpack, Lines(list1), Lines(list2));
            && TextFold(DiffText(disk, modpack, list1, list2), changes) == JoinLines(LineFold(diff, changes))
            && forall path :: Single(LineFold(diff, changes), path)
                 && MarkerOf(LineFold(diff, changes), path) == MarkerFold(MarkerOf(diff, path), changes, path)
  {
    hide Missing, Lines, ProperEntries, Statable, AllHit, Plain, TextFold, LineFold, MarkerFold, Single, MarkerOf, DiffText, JoinLines;
    var diff := DiffLines(disk, modpack, Lines(list1), Lines(list2));
    DiffTextIsLines(disk, modpack, list1, list2);
    DiffLineTexts(disk, modpack, Lines(list1), Lines(list2));
    FoldRefines(diff, changes);
    forall path ensures Single(LineFold(diff, changes), path)
      && MarkerOf(LineFold(diff, changes), path) == MarkerFold(MarkerOf(diff, path), changes, path)
    {
      DiffSingle(disk, modpack, Lines(list1), Lines(list2), path);
      FoldMarkers(diff, changes, path);
    }
  }

  // ---------------------------------------------------------------- from the disk to the client

  lemma {:induction false} ChangesAfterMeaning(lines: seq<string>, mark: string)
    ensures ChangesAfter(lines, mark).None? <==> mark !in lines
    ensures ChangesAfter(lines, mark).Some? ==>
              exists k :: 0 <= k < |lines| && lines[k] == mark && mark !in lines[..k] && ChangesAfter(lines, mark).value == lines[k + 1..]
  {
    if lines != [] {
      if lines[0] == mark {
        assert lines[..0] == [];
      } else {
        ChangesAfterMeaning(lines[1..], mark);
        assert lines == [lines[0]] + lines[1..];
        if k :| 0 <= k < |lines[1..]| && lines[1..][k] == mark && mark !in lines[1..][..k] && ChangesAfter(lines[1..], mark).value == lines[1..][k + 1..] {
          assert lines[..k + 1] == [lines[0]] + lines[1..][..k];
          assert lines[k + 1] == mark && lines[k + 2..] == lines[1..][k + 1..];
        }
      }
    }
  }

  function VersionPath(modpack: string): string {
    "/DATA/VERSION/" + modpack
  }

  function ChangePath(modpack: string): string {
    "/DATA/CHANGE/" + modpack
  }

  /** What a file holds, as far as it is read. */
  function Read(disk: Disk, path: string, max: nat): string
    requires path in disk.files
  {
    FileRead(disk, path, max).value
  }

  /** The version that the modpack is at. */
  function Latest(disk: Disk, modpack: string): string
    requires VersionPath(modpack) in disk.files
  {
    Replace(Read(disk, VersionPath(modpack), 40), [LF], "")
  }

  /** All that an update needs is there. */
  ghost predicate Complete(disk: Disk, modpack: string, version: string) {
    && VersionPath(modpack) in disk.files && ListPath(modpack, version) in disk.files
    && ListPath(modpack, Latest(disk, modpack)) in disk.files && ChangePath(modpack) in disk.files
    && ("@" + version) in Lines(Read(disk, ChangePath(modpack), LIST_MAX))
  }

  /** Each error means that something particular is missing, and instructions that nothing is. */
  lemma UpdateErrors(disk: Disk, modpack: string, version: string)
    ensures Update(disk, modpack, version) == NoModpack <==> VersionPath(modpack) !in disk.files
    ensures Update(disk, modpack, version) == NoVersion <==>
            VersionPath(modpack) in disk.files && ListPath(modpack, version) !in disk.files
    ensures Update(disk, modpack, version).Instructions? <==> Complete(disk, modpack, version)
  {
    hide Lines, Replace, TextFold, DiffText, ChangesAfter;
    if ChangePath(modpack) in disk.files {
      ChangesAfterMeaning(Lines(Read(disk, ChangePath(modpack), LIST_MAX)), "@" + version);
    }
  }

  /** The text of the instructions: the comparison of the client's list with the latest, in this order, and
      then the changes made since the client's version. */
  lemma UpdateText(disk: Disk, modpack: string, version: string)
    requires Complete(disk, modpack, version)
    ensures var list1 := Read(disk, ListPath(modpack, version), LIST_MAX);
            var list2 := Read(disk, ListPath(modpack, Latest(disk, modpack)), LIST_MAX);
            exists changes :: Since(disk, modpack, version, changes)
              && Update(disk, modpack, version) == Instructions(TextFold(DiffText(disk, modpack, list1, list2), changes))
  {
    hide Lines, Replace, TextFold, DiffText, ChangesAfter;
    var lines := Lines(Read(disk, ChangePath(modpack), LIST_MAX));
    ChangesAfterMeaning(lines, "@" + version);
    assert Since(disk, modpack, version, ChangesAfter(lines, "@" + version).value);
  }

  /** The lines behind the first mark of a version in the list of changes. */
  ghost predicate Since(disk: Disk, modpack: string, version: string, changes: seq<string>)
    requires ChangePath(modpack) in disk.files
  {
    var lines := Lines(Read(disk, ChangePath(modpack), LIST_MAX));
    exists k :: 0 <= k < |lines| && lines[k] == "@" + version && "@" + version !in lines[..k] && changes == lines[k + 1..]
  }

  /** The two lists an update compares, and that they can be compared. */
  ghost predicate Comparable(disk: Disk, modpack: string, version: string)
    requires Complete(disk, modpack, version)
  {
    var old' := Lines(Read(disk, ListPath(modpack, version), LIST_MAX));
    var new' := Lines(Read(disk, ListPath(modpack, Latest(disk, modpack)), LIST_MAX));
    ProperEntries(Missing(old', new')) && ProperEntries(Missing(new', old')) && Statable(disk, modpack, Missing(new', old'))
  }

  lemma SinceUnique(disk: Disk, modpack: string, version: string, a: seq<string>, b: seq<string>)
    requires ChangePath(modpack) in disk.files && Since(disk, modpack, version, a) && Since(disk, modpack, version, b)
    ensures a == b
  {
    hide Lines;
    var lines, mark := Lines(Read(disk, ChangePath(modpack), LIST_MAX)), "@" + version;
    var i :| 0 <= i < |lines| && lines[i] == mark && mark !in lines[..i] && a == lines[i + 1..];
    var j :| 0 <= j < |lines| && lines[j] == mark && mark !in lines[..j] && b == lines[j + 1..];
    assert i == j;
  }

  /** With no manual changes, a client that carries out the instructions has the latest entries. */
  lemma UpdateBringsLatest(disk: Disk, modpack: string, version: string)
    requires Complete(disk, modpack, version) && Comparable(disk, modpack, version) && Since(disk, modpack, version, [])
    ensures var old' := Lines(Read(disk, ListPath(modpack, version), LIST_MAX));
            var new' := Lines(Read(disk, ListPath(modpack, Latest(disk, modpack)), LIST_MAX));
            && Update(disk, modpack, version).Instructions?
            && ApplyLines(Entries(old'), Lines(Update(disk, modpack, version).text)) == Entries(new')
  {
    hide Lines, Replace, DiffText, ApplyLines, Since, Update, Missing, ProperEntries, Statable, Entries, DiffLines, JoinLines;
    var list1 := Read(disk, ListPath(modpack, version), LIST_MAX);
    var list2 := Read(disk, ListPath(modpack, Latest(disk, modpack)), LIST_MAX);
    UpdateText(disk, modpack, version);
    var changes :| Since(disk, modpack, version, changes)
      && Update(disk, modpack, version) == Instructions(TextFold(DiffText(disk, modpack, list1, list2), changes));
    SinceUnique(disk, modpack, version, changes, []);
    DiffTextIsLines(disk, modpack, list1, list2);
    DiffLineTexts(disk, modpack, Lines(list1), Lines(list2));
    LinesOfJoin(DiffLines(disk, modpack, Lines(list1), Lines(list2)));
    DiffCorrect(disk, modpack, Lines(list1), Lines(list2));
  }

  /** With manual changes that hit only their lines, the client reads exactly the lines of the comparison
      with the changes folded in, and finds each path with the marker that the table leads to. */
  lemma UpdateMarkers(disk: Disk, modpack: string, version: string, changes: seq<string>)
    requires Complete(disk, modpack, version) && Comparable(disk, modpack, version)
    requires Since(disk, modpack, version, changes) && Plain(changes)
    requires AllHit(DiffLines(disk, modpack, Lines(Read(disk, ListPath(modpack, version), LIST_MAX)),
                              Lines(Read(disk, ListPath(modpack, Latest(disk, modpack)), LIST_MAX))), changes)
    ensures var old' := Lines(Read(disk, ListPath(modpack, version), LIST_MAX));
            var new' := Lines(Read(disk, ListPath(modpack, Latest(disk, modpack)), LIST_MAX));
            var diff := DiffLines(disk, modpack, old', new');
            && Update(disk, modpack, version) == Instructions(JoinLines(LineFold(diff, changes)))
            && forall path :: Single(LineFold(diff, changes), path)
                 && MarkerOf(LineFold(diff, changes), path) == MarkerFold(MarkerOf(diff, path), changes, path)
  {
    hide Lines, Replace, DiffText, Since, Update, Missing, ProperEntries, Statable, DiffLines, JoinLines, AllHit, Plain, TextFold, LineFold, MarkerFold, MarkerOf, Single;
    var list1 := Read(disk, ListPath(modpack, version), LIST_MAX);
    var list2 := Read(disk, ListPath(modpack, Latest(disk, modpack)), LIST_MAX);
    UpdateText(disk, modpack, version);
    var c :| Since(disk, modpack, version, c)
      && Update(disk, modpack, version) == Instructions(TextFold(DiffText(disk, modpack, list1, list2), c));
    SinceUnique(disk, modpack, version, c, changes);
    UpdateMeaning(disk, modpack, list1, list2, changes);
  }

  /** A new entry is announced as what it is, and one that cannot be looked at is only remarked on. */
  lemma KindTold(disk: Disk, modpack: string, file: string)
    requires ProperEntry(file)
    ensures var line, kind := AdditionLine(disk, modpack, file), disk.kinds(ModPath(modpack, file));
            && |line| > 1 && (line[0] == '#' <==> kind.Unstatable?) && (line[0] == PLUS <==> !kind.Unstatable?)
            && (line[1] == 'f' <==> kind.Regular?) && (line[1] == 'd' <==> kind.Directory?) && (line[1] == 'u' <==> kind.Other?)
  {
    hide Replace;
    if !disk.kinds(ModPath(modpack, file)).Unstatable? {
      MarkedAdditions(disk, modpack, [file]);
      assert AdditionLines(disk, modpack, [file])[0] == AdditionLine(disk, modpack, file);
    }
  }
}
