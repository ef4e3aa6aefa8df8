/** The text a remote `stat` prints for a directory's entries, and how `readDir` and
    `parseStatLine` read it back. A `char` stands for one byte here. */
module StatListing {
  import opened Text

  datatype FileStat = FileStat(isDir: bool, name: string)

  /** `Panics`: slicing the line for the error message runs past its end. */
  datatype Parse = Parsed(stat: FileStat) | Unrecognised | Panics

  /** Listing a directory: entries and whether an error comes with them, or a panic. */
  datatype Listing = Listing(entries: seq<FileStat>, failed: bool) | Crash

  // ---------- filepath.Base ----------

  function DropSlashes(path: string): (s: string)
    ensures s == "" || s[|s| - 1] != '/'
  {
    if path != "" && path[|path| - 1] == '/' then DropSlashes(path[..|path| - 1]) else path
  }

  function AfterLastSlash(path: string): (s: string)
    ensures '/' !in s
  {
    if path == "" || path[|path| - 1] == '/' then ""
    else AfterLastSlash(path[..|path| - 1]) + [path[|path| - 1]]
  }

  function Base(path: string): string {
    if path == "" then "."
    else
      var s := DropSlashes(path);
      if s == "" then "/" else AfterLastSlash(s)
  }

  /** The base of a path below a directory is its last component. */
  lemma BaseOfChild(dir: string, name: string)
    requires name != "" && '/' !in name
    ensures Base(dir + "/" + name) == name
  {
    var path := dir + "/" + name;
    assert path[|path| - 1] == name[|name| - 1];
    LastComponent(dir, name);
  }

  lemma {:induction false} LastComponent(dir: string, name: string)
    requires '/' !in name
    ensures AfterLastSlash(dir + "/" + name) == name
  {
    var path := dir + "/" + name;
    if name == "" {
      assert path == dir + "/";
    } else {
      var front := name[..|name| - 1];
      assert path[..|path| - 1] == dir + "/" + front;
      LastComponent(dir, front);
      assert name == front + [name[|name| - 1]];
    }
  }

  // ---------- one line ----------

  const DIRECTORY := "directory_"
  const REGULAR := "regular file_"
  const EMPTY := "regular empty file_"

  function TrimLeft(s: string): string {
    if s != "" && s[0] == '\n' then TrimLeft(s[1..]) else s
  }

  function TrimRight(s: string): string {
    if s != "" && s[|s| - 1] == '\n' then TrimRight(s[..|s| - 1]) else s
  }

  predicate HasPrefix(s: string, prefix: string) {
    |prefix| <= |s| && s[..|prefix|] == prefix
  }

  function ParseStatLine(line: string): Parse {
    var s := TrimRight(TrimLeft(line));
    if HasPrefix(s, DIRECTORY) then Parsed(FileStat(true, Base(s[10..])))
    else if HasPrefix(s, REGULAR) then Parsed(FileStat(false, Base(s[13..])))
    else if HasPrefix(s, EMPTY) then Parsed(FileStat(false, Base(s[19..])))
    else if |s| < 20 then Panics
    else Unrecognised
  }

  // ---------- the whole output ----------

  const NO_EXISTS := "__STAT_NO_EXISTS__"
  const NO_DIR := "__STAT_NO_DIR__"

  predicate Contains(s: string, sub: string) {
    HasPrefix(s, sub) || (s != "" && Contains(s[1..], sub))
  }

  /** Empty lines are skipped; the first line that cannot be parsed decides the outcome. */
  function ParseLines(lines: seq<string>): Listing {
    if lines == [] then Listing([], false)
    else if lines[0] == "" then ParseLines(lines[1..])
    else
      match ParseStatLine(lines[0])
      case Panics => Crash
      case Unrecognised => Listing([], true)
      case Parsed(stat) => Prepend(stat, ParseLines(lines[1..]))
  }

  function Prepend(stat: FileStat, rest: Listing): Listing {
    if rest.Crash? || rest.failed then rest else Listing([stat] + rest.entries, false)
  }

  function ReadOutput(output: string): Listing {
    if Contains(output, NO_EXISTS) || Contains(output, NO_DIR) then Listing([], true)
    else ParseLines(Split(output, '\n'))
  }

  /** `readDir`, from the moment the session exists. An error when the session is closed is added to
      whatever was being returned, so entries and an error may come together. */
  method ReadDir(commandFails: bool, output: string, closeFails: bool) returns (r: Listing)
    ensures commandFails ==> r == Listing([], true)
    ensures !commandFails && ReadOutput(output).Crash? ==> r.Crash?
    ensures !commandFails && ReadOutput(output).Listing? ==>
              r == Listing(ReadOutput(output).entries, ReadOutput(output).failed || closeFails)
  {
    if commandFails {
      return Listing([], true);
    }
    if Contains(output, NO_EXISTS) || Contains(output, NO_DIR) {
      return Listing([], true);
    }
    var lines := Split(output, '\n');
    var fsl: seq<FileStat> := [];
    for i := 0 to |lines|
      invariant ParseLines(lines) == PrependAll(fsl, ParseLines(lines[i..]))
    {
      var line := lines[i];
      assert lines[i..][0] == line && lines[i..][1..] == lines[i + 1..];
      if line == "" {
        continue;
      }
      match ParseStatLine(line) {
        case Panics => return Crash;
        case Unrecognised => return Listing([], true);
        case Parsed(stat) =>
          PrependMore(fsl, stat, ParseLines(lines[i + 1..]));
          fsl := fsl + [stat];
      }
    }
    r := Listing(fsl, closeFails);
  }

  ghost function PrependAll(stats: seq<FileStat>, rest: Listing): Listing {
    if rest.Crash? || rest.failed then rest else Listing(stats + rest.entries, false)
  }

  lemma PrependMore(stats: seq<FileStat>, stat: FileStat, rest: Listing)
    ensures PrependAll(stats, Prepend(stat, rest)) == PrependAll(stats + [stat], rest)
  {
  }

  // ---------- printing and reading back ----------

  datatype Kind = Directory | RegularFile | EmptyFile

  datatype Item = Item(kind: Kind, path: string)

  function TypeText(kind: Kind): string {
    match kind
    case Directory => DIRECTORY
    case RegularFile => REGULAR
    case EmptyFile => EMPTY
  }

  /** One line of `stat --printf="%F_%n\n"`. */
  function Line(item: Item): string {
    TypeText(item.kind) + item.path
  }

  function Lines(items: seq<Item>): seq<string> {
    seq(|items|, i requires 0 <= i < |items| => Line(items[i]))
  }

  function Unlines(lines: seq<string>): string {
    if lines == [] then "" else lines[0] + "\n" + Unlines(lines[1..])
  }

  function StatOf(item: Item): FileStat {
    FileStat(item.kind.Directory?, Base(item.path))
  }

  function StatsOf(items: seq<Item>): seq<FileStat> {
    seq(|items|, i requires 0 <= i < |items| => StatOf(items[i]))
  }

  lemma {:induction false} SplitUnlines(lines: seq<string>)
    requires forall i :: 0 <= i < |lines| ==> '\n' !in lines[i]
    ensures Split(Unlines(lines), '\n') == lines + [""]
  {
    if lines != [] {
      SplitUnlines(lines[1..]);
      SplitAtom(lines[0], '\n');
      SplitConcat(lines[0], Unlines(lines[1..]), '\n');
    }
  }

  lemma TrimIsIdentity(s: string)
    requires '\n' !in s
    ensures TrimRight(TrimLeft(s)) == s
  {
  }

  lemma PrefixMismatch(s: string, prefix: string, i: nat)
    requires i < |s| && i < |prefix| && s[i] != prefix[i]
    ensures !HasPrefix(s, prefix)
  {
  }

  lemma LinePrefix(item: Item)
    ensures HasPrefix(Line(item), TypeText(item.kind)) && Line(item)[|TypeText(item.kind)|..] == item.path
    ensures !item.kind.Directory? ==> !HasPrefix(Line(item), DIRECTORY)
    ensures item.kind.EmptyFile? ==> !HasPrefix(Line(item), REGULAR)
  {
    var s, t := Line(item), TypeText(item.kind);
    assert forall i :: 0 <= i < |t| ==> s[i] == t[i];
    if !item.kind.Directory? {
      PrefixMismatch(s, DIRECTORY, 0);
    }
    if item.kind.EmptyFile? {
      PrefixMismatch(s, REGULAR, 8);
    }
  }

  lemma ParseLine(item: Item)
    requires '\n' !in item.path
    ensures '\n' !in Line(item) && Line(item) != ""
    ensures ParseStatLine(Line(item)) == Parsed(StatOf(item))
  {
    TrimIsIdentity(Line(item));
    LinePrefix(item);
  }

  lemma ParseFirst(line: string, rest: seq<string>)
    requires line != ""
    ensures ParseLines([line] + rest) ==
            match ParseStatLine(line)
            case Panics => Crash
            case Unrecognised => Listing([], true)
            case Parsed(stat) => Prepend(stat, ParseLines(rest))
  {
  }

  lemma ParsePrintedFirst(item: Item, rest: seq<string>)
    requires '\n' !in item.path
    ensures ParseLines([Line(item)] + rest) == Prepend(StatOf(item), ParseLines(rest))
  {
    ParseLine(item);
    ParseFirst(Line(item), rest);
  }

  lemma ConsPrinted(items: seq<Item>)
    requires items != []
    ensures Lines(items) + [""] == [Line(items[0])] + (Lines(items[1..]) + [""])
    ensures StatsOf(items) == [StatOf(items[0])] + StatsOf(items[1..])
  {
  }

  lemma {:induction false} ParsePrinted(items: seq<Item>)
    requires forall i :: 0 <= i < |items| ==> '\n' !in items[i].path
    ensures ParseLines(Lines(items) + [""]) == Listing(StatsOf(items), false)
  {
    if items == [] {
      assert Lines(items) + [""] == [""];
      assert ParseLines([""]) == ParseLines([""][1..]);
    } else {
      ConsPrinted(items);
      ParsePrintedFirst(items[0], Lines(items[1..]) + [""]);
      ParsePrinted(items[1..]);
    }
  }

  /** Round trip: what was printed for directories and regular files is read back, in order, as
      their kinds and base names, exactly when no marker text occurs in the output. */
  lemma ListingRoundTrip(items: seq<Item>)
    requires forall i :: 0 <= i < |items| ==> '\n' !in items[i].path
    ensures ReadOutput(Unlines(Lines(items))) == Listing(StatsOf(items), false)
            <==> !Contains(Unlines(Lines(items)), NO_EXISTS) && !Contains(Unlines(Lines(items)), NO_DIR)
  {
    forall i | 0 <= i < |items|
      ensures '\n' !in Lines(items)[i]
    {
      ParseLine(items[i]);
    }
    SplitUnlines(Lines(items));
    ParsePrinted(items);
  }

  // ---------- exactly when a listing can be read ----------

  predicate Readable(line: string) {
    line == "" || ParseStatLine(line).Parsed?
  }

  /** The position of the first line that cannot be read, or the number of lines. */
  function FirstBad(lines: seq<string>): (k: nat)
    ensures k <= |lines|
    ensures forall i :: 0 <= i < k ==> Readable(lines[i])
    ensures k < |lines| ==> !Readable(lines[k])
  {
    if lines == [] || !Readable(lines[0]) then 0 else 1 + FirstBad(lines[1..])
  }

  lemma FirstBadIs(lines: seq<string>, k: nat)
    requires k < |lines| && !Readable(lines[k]) && forall i :: 0 <= i < k ==> Readable(lines[i])
    ensures FirstBad(lines) == k
  {
  }

  predicate Succeeds(l: Listing) {
    l.Listing? && !l.failed
  }

  predicate Marked(output: string) {
    Contains(output, NO_EXISTS) || Contains(output, NO_DIR)
  }

  lemma {:induction false} ParseLinesOutcome(lines: seq<string>)
    ensures Succeeds(ParseLines(lines)) <==> FirstBad(lines) == |lines|
    ensures ParseLines(lines).Crash? <==> FirstBad(lines) < |lines| && ParseStatLine(lines[FirstBad(lines)]).Panics?
  {
    if lines != [] {
      ParseLinesOutcome(lines[1..]);
    }
  }

  /** How a newline-free line parses. */
  lemma LineOutcome(line: string)
    requires '\n' !in line
    ensures ParseStatLine(line).Parsed? <==>
            HasPrefix(line, DIRECTORY) || HasPrefix(line, REGULAR) || HasPrefix(line, EMPTY)
    ensures ParseStatLine(line).Panics? <==> !ParseStatLine(line).Parsed? && |line| < 20
  {
    TrimIsIdentity(line);
  }

  /** The listing of a directory succeeds exactly when no marker text occurs in the output and every
      line that is not empty can be parsed; it panics exactly when no marker occurs and the first line
      that cannot be parsed has fewer than twenty bytes. */
  lemma ListingOutcome(lines: seq<string>)
    requires forall i :: 0 <= i < |lines| ==> '\n' !in lines[i]
    ensures var output := Unlines(lines);
            && (Succeeds(ReadOutput(output))
                <==> !Marked(output) && forall i :: 0 <= i < |lines| ==> Readable(lines[i]))
            && (ReadOutput(output).Crash? <==>
                  !Marked(output) && FirstBad(lines) < |lines| && |lines[FirstBad(lines)]| < 20)
  {
    SplitUnlines(lines);
    var all, k := lines + [""], FirstBad(lines);
    ParseLinesOutcome(all);
    assert forall i :: 0 <= i < |lines| ==> all[i] == lines[i];
    if k < |lines| {
      FirstBadIs(all, k);
      LineOutcome(lines[k]);
    }
  }

  /** Any other kind of entry, such as a symbolic link, spoils the listing of the whole directory:
      behind directories and regular files it makes `readDir` fail, and panic exactly when its line
      has fewer than twenty bytes and no marker text occurs in the output. */
  lemma OtherKindSpoilsListing(items: seq<Item>, line: string, rest: seq<string>)
    requires forall i :: 0 <= i < |items| ==> '\n' !in items[i].path
    requires line != "" && '\n' !in line && forall i :: 0 <= i < |rest| ==> '\n' !in rest[i]
    requires !HasPrefix(line, DIRECTORY) && !HasPrefix(line, REGULAR) && !HasPrefix(line, EMPTY)
    ensures var output := Unlines(Lines(items) + [line] + rest);
            && !Succeeds(ReadOutput(output))
            && (ReadOutput(output).Crash? <==> !Marked(output) && |line| < 20)
  {
    PrintedReadable(items);
    LineOutcome(line);
    BadLineSpoilsListing(Lines(items), line, rest);
  }

  lemma PrintedReadable(items: seq<Item>)
    requires forall i :: 0 <= i < |items| ==> '\n' !in items[i].path
    ensures forall i :: 0 <= i < |items| ==> '\n' !in Lines(items)[i] && Readable(Lines(items)[i])
  {
    forall i | 0 <= i < |items|
      ensures '\n' !in Lines(items)[i] && Readable(Lines(items)[i])
    {
      ParseLine(items[i]);
    }
  }

  lemma BadLineSpoilsListing(front: seq<string>, line: string, rest: seq<string>)
    requires forall i :: 0 <= i < |front| ==> '\n' !in front[i] && Readable(front[i])
    requires '\n' !in line && !Readable(line) && forall i :: 0 <= i < |rest| ==> '\n' !in rest[i]
    ensures var output := Unlines(front + [line] + rest);
            && !Succeeds(ReadOutput(output))
            && (ReadOutput(output).Crash? <==> !Marked(output) && |line| < 20)
  {
    var lines := front + [line] + rest;
    Spliced(front, line, rest);
    FirstBadIs(lines, |front|);
    forall i | 0 <= i < |lines|
      ensures '\n' !in lines[i]
    {
    }
    ListingOutcome(lines);
  }

  lemma Spliced(front: seq<string>, line: string, rest: seq<string>)
    ensures var lines := front + [line] + rest;
            && |lines| == |front| + 1 + |rest| && lines[|front|] == line
            && (forall i :: 0 <= i < |front| ==> lines[i] == front[i])
            && forall i :: |front| < i < |lines| ==> lines[i] == rest[i - |front| - 1]
  {
  }

  lemma {:induction false} ContainsCharacters(s: string, sub: string, c: char)
    requires Contains(s, sub) && c in sub
    ensures c in s
  {
    if HasPrefix(s, sub) {
      var i :| 0 <= i < |sub| && sub[i] == c;
      assert s[i] == s[..|sub|][i];
    } else {
      ContainsCharacters(s[1..], sub, c);
    }
  }

  const LINK_LINE := "symbolic link_/a/b"

  /** For instance, a directory `/a` holding only the symbolic link `b`. */
  lemma LinkPanics()
    ensures ReadOutput(Unlines([LINK_LINE])) == Crash
  {
    var output := Unlines([LINK_LINE]);
    assert Lines([]) + [LINK_LINE] + [] == [LINK_LINE];
    assert 'S' !in LINK_LINE;
    assert output == LINK_LINE + "\n" + Unlines([]);
    assert 'S' !in output;
    assert NO_EXISTS[2] == 'S' && NO_DIR[2] == 'S';
    if Contains(output, NO_EXISTS) {
      ContainsCharacters(output, NO_EXISTS, 'S');
    }
    if Contains(output, NO_DIR) {
      ContainsCharacters(output, NO_DIR, 'S');
    }
    PrefixMismatch(LINK_LINE, DIRECTORY, 0);
    PrefixMismatch(LINK_LINE, REGULAR, 0);
    PrefixMismatch(LINK_LINE, EMPTY, 0);
    OtherKindSpoilsListing([], LINK_LINE, []);
  }

  /** The texts of the three kinds of line, and what each is read as. */
  lemma LinesRead(path: string)
    requires '\n' !in path
    ensures ParseStatLine("directory_" + path) == Parsed(FileStat(true, Base(path)))
    ensures ParseStatLine("regular file_" + path) == Parsed(FileStat(false, Base(path)))
    ensures ParseStatLine("regular empty file_" + path) == Parsed(FileStat(false, Base(path)))
  {
    ParseLine(Item(Directory, path));
    ParseLine(Item(RegularFile, path));
    ParseLine(Item(EmptyFile, path));
  }

  lemma {:induction false} ContainsMiddle(before: string, sub: string, after: string)
    ensures Contains(before + sub + after, sub)
  {
    var s := before + sub + after;
    if before == "" {
      assert s[..|sub|] == sub;
    } else {
      assert s[1..] == before[1..] + sub + after;
      ContainsMiddle(before[1..], sub, after);
    }
  }

  /** The texts that stand for a missing path and for one that is no directory make any output an error. */
  lemma MarkersAreErrors(before: string, after: string)
    ensures ReadOutput(before + "__STAT_NO_EXISTS__" + after) == Listing([], true)
    ensures ReadOutput(before + "__STAT_NO_DIR__" + after) == Listing([], true)
  {
    ContainsMiddle(before, NO_EXISTS, after);
    ContainsMiddle(before, NO_DIR, after);
  }

  /** The base of no path at all, of slashes only, and of a path with slashes at its end. */
  lemma BaseEdges(path: string)
    ensures Base("") == "." && Base("/") == "/"
    ensures path != "" ==> Base(path + "/") == Base(path)
  {
    assert "/"[..0] == "";
    assert (path + "/")[..|path|] == path;
  }

  /** With child paths of one directory, the base names read back are the children's names. */
  lemma ChildNamesReadBack(dir: string, names: seq<string>, kinds: seq<Kind>)
    requires |names| == |kinds| && '\n' !in dir
    requires forall i :: 0 <= i < |names| ==> names[i] != "" && '/' !in names[i] && '\n' !in names[i]
    ensures var items := seq(|names|, i requires 0 <= i < |names| => Item(kinds[i], dir + "/" + names[i]));
            && |StatsOf(items)| == |names|
            && forall i :: 0 <= i < |names| ==> StatsOf(items)[i] == FileStat(kinds[i].Directory?, names[i])
  {
    forall i | 0 <= i < |names|
      ensures Base(dir + "/" + names[i]) == names[i]
    {
      BaseOfChild(dir, names[i]);
    }
  }
}
