/** The names of backup files, `<profile>_<year>_<day>_<month>-<h>:<m>:<s>_backup.zip`:
    how a run prints them, how the retention and sync code recognises them, and how
    the time is read back. */
module BackupName {
  import opened Text
  import opened Calendar

  // ---------- profile names ----------

  /** Characters that keep a profile name from standing for itself, in a glob pattern or as
      a file name component: the special characters of the glob syntax, NUL and the Unicode
      replacement character (which end or break the pattern's lexer) and the path separator. */
  predicate Special(c: char) {
    c in "*?[]{}\\" || c == '\0' || c == '\U{FFFD}' || c == '/'
  }

  predicate Plain(name: string) {
    forall i :: 0 <= i < |name| ==> !Special(name[i])
  }

  type ProfileName = name: string | Plain(name) witness ""

  // ---------- printing ----------

  function DigitChar(d: int): char
    requires 0 <= d < 10
  {
    ('0' as int + d) as char
  }

  predicate IsDigit(c: char) {
    '0' <= c <= '9'
  }

  function DigitValue(c: char): int
    requires IsDigit(c)
  {
    c as int - '0' as int
  }

  function Pad2(n: int): string
    requires 0 <= n < 100
  {
    [DigitChar(n / 10), DigitChar(n % 10)]
  }

  function Pad4(n: int): string
    requires 0 <= n < 10000
  {
    Pad2(n / 100) + Pad2(n % 100)
  }

  /** Years that print as exactly four digits. */
  predicate Printable(t: DateTime) {
    Valid(t) && t.year < 10000
  }

  /** The layout `2006_02_01-15:04:05`: year, day, month, then the time of day. */
  function Stamp(t: DateTime): string
    requires Printable(t)
  {
    Pad4(t.year) + "_" + Pad2(t.day) + "_" + Pad2(t.month) + "-" + TimeOfDay(t)
  }

  function TimeOfDay(t: DateTime): string
    requires Printable(t)
  {
    Pad2(t.hour) + ":" + Pad2(t.minute) + ":" + Pad2(t.second)
  }

  const TAIL := "_backup.zip"

  /** `getZipName`, with the clock as a parameter. */
  function ZipName(name: ProfileName, now: DateTime): string
    requires Printable(now)
  {
    name + "_" + Stamp(now) + TAIL
  }

  // ---------- recognising ----------

  /** A compiled glob made of literal characters and `[0-9]` classes. */
  datatype Token = Lit(c: char) | Digit

  predicate Accepts(t: Token, c: char) {
    match t
    case Lit(d) => c == d
    case Digit => IsDigit(c)
  }

  predicate GlobMatch(pattern: seq<Token>, s: string) {
    |pattern| == |s| && forall i :: 0 <= i < |s| ==> Accepts(pattern[i], s[i])
  }

  function Literal(s: string): seq<Token> {
    seq(|s|, i requires 0 <= i < |s| => Lit(s[i]))
  }

  /** `[0-9][0-9][0-9][0-9]_[0-9][0-9]_[0-9][0-9]-[0-9][0-9]:[0-9][0-9]:[0-9][0-9]` */
  const STAMP_PATTERN: seq<Token> :=
    [Digit, Digit, Digit, Digit, Lit('_'), Digit, Digit, Lit('_'), Digit, Digit, Lit('-'),
     Digit, Digit, Lit(':'), Digit, Digit, Lit(':'), Digit, Digit]

  /** What both `findToDelete` and `findDifferentProfiles` compile for a profile name. */
  function Pattern(name: ProfileName): seq<Token> {
    Literal(name) + (Literal("_") + (STAMP_PATTERN + Literal(TAIL)))
  }

  predicate Matches(name: ProfileName, file: string) {
    GlobMatch(Pattern(name), file)
  }

  // ---------- reading the time back ----------

  function Number2(s: string): (n: int)
    requires |s| == 2 && IsDigit(s[0]) && IsDigit(s[1])
    ensures 0 <= n < 100
  {
    10 * DigitValue(s[0]) + DigitValue(s[1])
  }

  function Number4(s: string): (n: int)
    requires |s| == 4 && forall i :: 0 <= i < 4 ==> IsDigit(s[i])
    ensures 0 <= n < 10000
  {
    100 * Number2(s[..2]) + Number2(s[2..])
  }

  function Field(stamp: string, at: int): int
    requires GlobMatch(STAMP_PATTERN, stamp)
    requires 0 <= at < 18 && STAMP_PATTERN[at] == STAMP_PATTERN[at + 1] == Digit
  {
    assert Accepts(STAMP_PATTERN[at], stamp[at]) && Accepts(STAMP_PATTERN[at + 1], stamp[at + 1]);
    Number2(stamp[at..at + 2])
  }

  function YearField(stamp: string): int
    requires GlobMatch(STAMP_PATTERN, stamp)
  {
    assert forall i :: 0 <= i < 4 ==> Accepts(STAMP_PATTERN[i], stamp[i]);
    Number4(stamp[..4])
  }

  /** `time.Parse` with the layout above, on text of that layout's shape; `None` for a
      parse error (some field out of range). */
  function ParseStamp(stamp: string): (r: Option<DateTime>)
    requires GlobMatch(STAMP_PATTERN, stamp)
  {
    var t := DateTime(YearField(stamp), Field(stamp, 8), Field(stamp, 5),
                      Field(stamp, 11), Field(stamp, 14), Field(stamp, 17));
    if Valid(t) then Some(t) else None
  }

  /** The stretch of a file name that `extractTime` hands to the parser: the fourth, third and
      second pieces from the end, split at `_`. The source slices without a bounds check. */
  function StampOf(file: string): string
    requires |Split(file, '_')| >= 4
  {
    var parts := Split(file, '_');
    Join(parts[|parts| - 4..|parts| - 1], '_')
  }

  /** Files whose name carries a stamp: those `extractTime` is called on. */
  predicate Stamped(file: string) {
    |Split(file, '_')| >= 4 && GlobMatch(STAMP_PATTERN, StampOf(file))
  }

  function ExtractTime(file: string): Option<DateTime>
    requires Stamped(file)
  {
    ParseStamp(StampOf(file))
  }

  /** A failed parse yields Go's zero time, midnight of the first day of year 1. */
  const ZERO_TIME := DateTime(1, 1, 1, 0, 0, 0)

  /** The instant a file is sorted by. Only names carrying a stamp are ever sorted. */
  function TimeOf(file: string): int {
    match if Stamped(file) then ExtractTime(file) else None
    case Some(t) => Instant(t)
    case None => Instant(ZERO_TIME)
  }

  // ---------- shape of matching names ----------

  const SUFFIX_LENGTH := 31

  /** The pattern cuts a name into the profile name, `_`, nineteen stamp characters and the tail. */
  lemma MatchShape(name: ProfileName, file: string)
    ensures Matches(name, file) <==>
            && |file| == |name| + SUFFIX_LENGTH
            && file[..|name|] == name
            && file[|name|] == '_'
            && GlobMatch(STAMP_PATTERN, file[|name| + 1..|name| + 20])
            && file[|name| + 20..] == TAIL
  {
  }

  lemma StampCut(stamp: string)
    requires GlobMatch(STAMP_PATTERN, stamp)
    ensures stamp == stamp[..4] + "_" + (stamp[5..7] + "_" + stamp[8..])
    ensures '_' !in stamp[..4] && '_' !in stamp[5..7] && '_' !in stamp[8..]
  {
    assert forall i :: 0 <= i < 19 ==> Accepts(STAMP_PATTERN[i], stamp[i]);
    assert stamp[4] == '_' && stamp[7] == '_';
    assert forall i :: 0 <= i < 19 && i != 4 && i != 7 ==> stamp[i] != '_';
  }

  lemma StampPieces(stamp: string)
    requires GlobMatch(STAMP_PATTERN, stamp)
    ensures Split(stamp, '_') == [stamp[..4], stamp[5..7], stamp[8..]]
    ensures Join([stamp[..4], stamp[5..7], stamp[8..]], '_') == stamp
  {
    StampCut(stamp);
    var y, d, rest := stamp[..4], stamp[5..7], stamp[8..];
    SplitAtom(y, '_');
    SplitAtom(d, '_');
    SplitAtom(rest, '_');
    SplitConcat(d, rest, '_');
    SplitConcat(y, d + "_" + rest, '_');
    JoinSplit(stamp, '_');
  }

  lemma FourParts(file: string, n: nat)
    requires n + 20 <= |file|
    ensures file == file[..n] + [file[n]] + file[n + 1..n + 20] + file[n + 20..]
  {
  }

  lemma CutName(name: ProfileName, file: string)
    requires Matches(name, file)
    ensures |file| == |name| + SUFFIX_LENGTH
    ensures GlobMatch(STAMP_PATTERN, file[|name| + 1..|name| + 20])
    ensures file == name + "_" + file[|name| + 1..|name| + 20] + TAIL
  {
    MatchShape(name, file);
    FourParts(file, |name|);
  }

  /** Counting pieces from the end finds the stamp whatever underscores the profile name has. */
  lemma StampFound(name: ProfileName, file: string)
    requires Matches(name, file)
    ensures |file| == |name| + SUFFIX_LENGTH
    ensures Stamped(file)
    ensures StampOf(file) == file[|name| + 1..|name| + 20]
  {
    CutName(name, file);
    var stamp := file[|name| + 1..|name| + 20];
    StampPieces(stamp);
    SplitFile(name, stamp);
    var parts, before := Split(file, '_'), |Split(name, '_')|;
    assert parts[before..before + 3] == Split(stamp, '_');
  }

  lemma SplitTail(front: string)
    ensures Split(front + TAIL, '_') == Split(front, '_') + ["backup.zip"]
  {
    var last := "backup.zip";
    assert TAIL == "_" + last && TAIL[1..] == last;
    SplitAtom(last, '_');
    SplitBefore(front, TAIL, '_');
  }

  lemma SplitFile(name: string, stamp: string)
    ensures Split(name + "_" + stamp + TAIL, '_') == Split(name, '_') + Split(stamp, '_') + ["backup.zip"]
  {
    SplitTail(name + "_" + stamp);
    SplitConcat(name, stamp, '_');
  }

  // ---------- round trip ----------

  lemma Pad2Number(n: int)
    requires 0 <= n < 100
    ensures IsDigit(Pad2(n)[0]) && IsDigit(Pad2(n)[1])
    ensures Number2(Pad2(n)) == n
  {
  }

  lemma Pad4Number(n: int)
    requires 0 <= n < 10000
    ensures |Pad4(n)| == 4
    ensures forall i :: 0 <= i < 4 ==> IsDigit(Pad4(n)[i])
    ensures Number4(Pad4(n)) == n
  {
    Pad2Number(n / 100);
    Pad2Number(n % 100);
    assert Pad4(n)[..2] == Pad2(n / 100) && Pad4(n)[2..] == Pad2(n % 100);
  }

  lemma StampFields(t: DateTime)
    requires Printable(t)
    ensures |Stamp(t)| == 19
    ensures Stamp(t)[..4] == Pad4(t.year) && Stamp(t)[4] == '_'
    ensures Stamp(t)[5..7] == Pad2(t.day) && Stamp(t)[7] == '_'
    ensures Stamp(t)[8..10] == Pad2(t.month) && Stamp(t)[10] == '-'
    ensures Stamp(t)[11..13] == Pad2(t.hour) && Stamp(t)[13] == ':'
    ensures Stamp(t)[14..16] == Pad2(t.minute) && Stamp(t)[16] == ':'
    ensures Stamp(t)[17..19] == Pad2(t.second)
  {
    Pad4Number(t.year);
    var clock := TimeOfDay(t);
    assert |clock| == 8;
    assert clock[0..2] == Pad2(t.hour) && clock[3..5] == Pad2(t.minute) && clock[6..8] == Pad2(t.second);
    var s := Stamp(t);
    assert s[11..] == clock;
    assert s[11..13] == clock[0..2] && s[14..16] == clock[3..5] && s[17..19] == clock[6..8];
  }

  lemma StampShape(t: DateTime)
    requires Printable(t)
    ensures GlobMatch(STAMP_PATTERN, Stamp(t))
  {
    var s := Stamp(t);
    StampFields(t);
    Pad4Number(t.year);
    Pad2Number(t.day);
    Pad2Number(t.month);
    Pad2Number(t.hour);
    Pad2Number(t.minute);
    Pad2Number(t.second);
    assert s[0] == s[..4][0] && s[1] == s[..4][1] && s[2] == s[..4][2] && s[3] == s[..4][3];
    assert s[5] == s[5..7][0] && s[6] == s[5..7][1];
    assert s[8] == s[8..10][0] && s[9] == s[8..10][1];
    assert s[11] == s[11..13][0] && s[12] == s[11..13][1];
    assert s[14] == s[14..16][0] && s[15] == s[14..16][1];
    assert s[17] == s[17..19][0] && s[18] == s[17..19][1];
    forall i | 0 <= i < 19
      ensures Accepts(STAMP_PATTERN[i], s[i])
    {
      assert i in {4, 7, 10, 13, 16} || IsDigit(s[i]);
    }
  }

  lemma ParsePrinted(t: DateTime)
    requires Printable(t)
    ensures GlobMatch(STAMP_PATTERN, Stamp(t))
    ensures ParseStamp(Stamp(t)) == Some(t)
  {
    StampShape(t);
    StampFields(t);
    Pad4Number(t.year);
    Pad2Number(t.day);
    Pad2Number(t.month);
    Pad2Number(t.hour);
    Pad2Number(t.minute);
    Pad2Number(t.second);
  }

  /** A printed name is recognised by its own profile and gives back its time. */
  lemma NameRoundTrip(name: ProfileName, now: DateTime)
    requires Printable(now)
    ensures Matches(name, ZipName(name, now))
    ensures Stamped(ZipName(name, now)) && ExtractTime(ZipName(name, now)) == Some(now)
  {
    var file, n := ZipName(name, now), |name|;
    ParsePrinted(now);
    assert |Stamp(now)| == 19;
    assert file[..n] == name;
    assert file[n + 1..n + 20] == Stamp(now);
    assert file[n + 20..] == TAIL;
    MatchShape(name, file);
    StampFound(name, file);
  }

  lemma NumberPad2(s: string)
    requires |s| == 2 && IsDigit(s[0]) && IsDigit(s[1])
    ensures Pad2(Number2(s)) == s
  {
  }

  lemma NumberPad4(s: string)
    requires |s| == 4 && forall i :: 0 <= i < 4 ==> IsDigit(s[i])
    ensures Pad4(Number4(s)) == s
  {
    NumberPad2(s[..2]);
    NumberPad2(s[2..]);
    assert Number4(s) / 100 == Number2(s[..2]) && Number4(s) % 100 == Number2(s[2..]);
    assert s[..2] + s[2..] == s;
  }

  lemma StampParts(stamp: string)
    requires GlobMatch(STAMP_PATTERN, stamp)
    ensures stamp == stamp[..4] + "_" + stamp[5..7] + "_" + stamp[8..10] + "-"
                     + (stamp[11..13] + ":" + stamp[14..16] + ":" + stamp[17..19])
  {
  }

  lemma PrintParsed(stamp: string)
    requires GlobMatch(STAMP_PATTERN, stamp)
    requires ParseStamp(stamp).Some?
    ensures Printable(ParseStamp(stamp).value) && Stamp(ParseStamp(stamp).value) == stamp
  {
    assert forall i :: 0 <= i < 19 ==> Accepts(STAMP_PATTERN[i], stamp[i]);
    NumberPad4(stamp[..4]);
    NumberPad2(stamp[5..7]);
    NumberPad2(stamp[8..10]);
    NumberPad2(stamp[11..13]);
    NumberPad2(stamp[14..16]);
    NumberPad2(stamp[17..19]);
    StampParts(stamp);
  }

  /** Conversely, a recognised name with a real date is the one that would be printed for it. */
  lemma NameReprint(name: ProfileName, file: string)
    requires Matches(name, file)
    requires Stamped(file) && ExtractTime(file).Some?
    ensures Printable(ExtractTime(file).value)
    ensures ZipName(name, ExtractTime(file).value) == file
  {
    CutName(name, file);
    StampFound(name, file);
    PrintParsed(StampOf(file));
  }

  /** A file of the profile has a real date if and only if it bears a name the profile can print. */
  lemma RealDateIsPrinted(name: ProfileName, file: string)
    requires Matches(name, file)
    ensures Stamped(file)
    ensures ExtractTime(file).Some? <==> exists t :: Printable(t) && file == ZipName(name, t)
  {
    StampFound(name, file);
    if ExtractTime(file).Some? {
      NameReprint(name, file);
    }
    if t :| Printable(t) && file == ZipName(name, t) {
      NameRoundTrip(name, t);
    }
  }

  /** Names of one profile with real dates are told apart by their times. */
  lemma SameTimeSameFile(name: ProfileName, f: string, g: string)
    requires Matches(name, f) && Matches(name, g)
    requires Stamped(f) && ExtractTime(f).Some?
    requires Stamped(g) && ExtractTime(g).Some?
    requires TimeOf(f) == TimeOf(g)
    ensures f == g
  {
    InstantOrder(ExtractTime(f).value, ExtractTime(g).value);
    NameReprint(name, f);
    NameReprint(name, g);
  }

  /** Printed names sort by civil time, although the day is printed before the month. */
  lemma PrintedOrder(name: ProfileName, a: DateTime, b: DateTime)
    requires Printable(a) && Printable(b)
    ensures TimeOf(ZipName(name, a)) < TimeOf(ZipName(name, b)) <==> Earlier(a, b)
  {
    NameRoundTrip(name, a);
    NameRoundTrip(name, b);
    InstantOrder(a, b);
  }

  const JANUARY_2 := DateTime(2024, 1, 2, 0, 0, 0)
  const FEBRUARY_1 := DateTime(2024, 2, 1, 0, 0, 0)

  lemma ExampleStamps()
    ensures Stamp(JANUARY_2) == "2024_0" + "2_01-00:00:00"
    ensures Stamp(FEBRUARY_1) == "2024_0" + "1_02-00:00:00"
  {
  }

  /** The text order of the names is not the time order: 2 January precedes 1 February in time
      but follows it as text. */
  lemma TextOrderIsNotTimeOrder(name: ProfileName)
    ensures TimeOf(ZipName(name, JANUARY_2)) < TimeOf(ZipName(name, FEBRUARY_1))
    ensures NameLess(ZipName(name, FEBRUARY_1), ZipName(name, JANUARY_2))
  {
    PrintedOrder(name, JANUARY_2, FEBRUARY_1);
    ExampleStamps();
    var ra, rb := "2_01-00:00:00", "1_02-00:00:00";
    RegroupName(name, JANUARY_2, "2024_0", ra);
    RegroupName(name, FEBRUARY_1, "2024_0", rb);
    assert (rb + TAIL)[0] == '1' && (ra + TAIL)[0] == '2';
    CommonPrefix(name + "_" + "2024_0", rb + TAIL, ra + TAIL);
  }

  lemma RegroupName(name: ProfileName, t: DateTime, head: string, rest: string)
    requires Printable(t) && Stamp(t) == head + rest
    ensures ZipName(name, t) == (name + "_" + head) + (rest + TAIL)
  {
  }

  lemma {:induction false} CommonPrefix(p: string, a: string, b: string)
    ensures NameLess(p + a, p + b) <==> NameLess(a, b)
  {
    if p == "" {
      assert p + a == a && p + b == b;
    } else {
      assert (p + a)[1..] == p[1..] + a && (p + b)[1..] == p[1..] + b;
      CommonPrefix(p[1..], a, b);
    }
  }

  // ---------- the date in the digits ----------

  /** The number that two digits stand for. */
  function TwoDigits(s: string, at: nat): int
    requires at + 2 <= |s|
  {
    10 * (s[at] as int - 48) + (s[at + 1] as int - 48)
  }

  /** The date-time that digits laid out as year, day, month, hour, minute and second stand for. */
  function DateAt(s: string, at: nat): DateTime
    requires at + 19 <= |s|
  {
    DateTime(100 * TwoDigits(s, at) + TwoDigits(s, at + 2), TwoDigits(s, at + 8), TwoDigits(s, at + 5),
             TwoDigits(s, at + 11), TwoDigits(s, at + 14), TwoDigits(s, at + 17))
  }

  /** What the digits of a matching name mean, and when they are no date. */
  lemma DateInDigits(name: ProfileName, file: string)
    requires Matches(name, file)
    ensures |file| == |name| + SUFFIX_LENGTH && Stamped(file)
    ensures var t := DateAt(file, |name| + 1);
            ExtractTime(file) == if InCalendar(t) then Some(t) else None
  {
    StampFound(name, file);
    DateInStamp(StampOf(file));
    SliceDigits(file, |name| + 1, StampOf(file));
  }

  lemma DateInStamp(stamp: string)
    requires GlobMatch(STAMP_PATTERN, stamp)
    ensures ParseStamp(stamp) == if InCalendar(DateAt(stamp, 0)) then Some(DateAt(stamp, 0)) else None
  {
    YearNumber(stamp);
    FieldNumber(stamp, 5);
    FieldNumber(stamp, 8);
    FieldNumber(stamp, 11);
    FieldNumber(stamp, 14);
    FieldNumber(stamp, 17);
    RealDates(DateAt(stamp, 0));
  }

  lemma YearNumber(stamp: string)
    requires GlobMatch(STAMP_PATTERN, stamp)
    ensures 0 <= YearField(stamp) == 100 * TwoDigits(stamp, 0) + TwoDigits(stamp, 2)
  {
  }

  lemma FieldNumber(stamp: string, at: nat)
    requires GlobMatch(STAMP_PATTERN, stamp) && at < 18 && STAMP_PATTERN[at] == STAMP_PATTERN[at + 1] == Digit
    ensures 0 <= Field(stamp, at) == TwoDigits(stamp, at)
  {
  }

  lemma SliceDigits(file: string, from: nat, stamp: string)
    requires from + 19 <= |file| && stamp == file[from..from + 19]
    ensures DateAt(file, from) == DateAt(stamp, 0)
  {
  }

  // ---------- one profile per file ----------

  /** A file belongs to at most one profile name. */
  lemma OneProfilePerFile(a: ProfileName, b: ProfileName, file: string)
    requires Matches(a, file) && Matches(b, file)
    ensures a == b
  {
    MatchShape(a, file);
    MatchShape(b, file);
  }

  /** Every matching name is seen by the `*.zip` listing. */
  lemma MatchIsZip(name: ProfileName, file: string)
    requires Matches(name, file)
    ensures HasSuffix(file, ".zip")
  {
  }
}
