/** Two configuration files, in the words of dwarfdump.conf, that are read with
    success although something is wrong with them. */
module DwConfExamples {
  import opened CText
  import opened DwConfText
  import opened DwConfSpec
  import opened DwConfLaws
  import opened ReadOutcome
  import opened DwConfSearch
  import opened DwConfLines

  // ----- an abi that includes an empty one

  /** Ready to read a further abi. */
  predicate Ready(st: State) {
    !st.Stopped() && st.regcount <= st.conf.tableEntryCount
  }

  /** From i on: x includes y and ends, and y begins and ends. */
  predicate Included(w: Words, text: string, i: nat, j: nat, k: nat, l: nat, end: nat, x: string, y: string) {
    && i < |text| && j < |text| && k < |text| && l < |text|
    && Parses(w, text, i, j, IncludeAbi(y, false)) && Parses(w, text, j, k, EndAbi(x, false))
    && Parses(w, text, k, l, BeginAbi(y, false))
    && Parses(w, text, l, end, EndAbi(y, false))
  }

  /** An abi without commands is read without error, whatever was before. */
  lemma EmptyAbiIsRead(
      w: Words, text: string, k: nat, l: nat, end: nat, name: string, level: nat, st: State)
    requires k < |text| && l < |text| && level <= MAX_NEST_LEVEL
    requires Parses(w, text, k, l, BeginAbi(name, false)) && Parses(w, text, l, end, EndAbi(name, false))
    requires FindAbi(w, text, 0, Some(name)) == FoundAt(k, false)
    requires Ready(st) && !st.beginSeen
    ensures var r := Read(w, text, Some(name), level, st);
      GivesAbi(r) && r.state == Fresh(w, text, Some(name), st).(beginSeen := true)
  {
    var st0 := Bump(Fresh(w, text, Some(name), st), 0);
    var st1 := Open(st0, name, name, false);
    assert Walk(w, text, l, name, level, true, 0, st1) == Close(st1, name, name, false) == st1;
    assert Walk(w, text, k, name, level, false, 0, st0) == st1;
    assert Enter(w, text, k, name, level, st0) == st1;
  }

  lemma ResumeEnds(
      w: Words, text: string, r: ReadResult, j: nat, k: nat, x: string, unknown: nat, beginSeen: bool)
    requires j < |text| && Parses(w, text, j, k, EndAbi(x, false)) && GivesAbi(r) && Fine(r.state) && Ready(r.state)
    ensures Fine(Resume(w, text, r, j, x, 0, unknown, beginSeen))
  {
    WalkTurn(w, text, j, k, EndAbi(x, false), x, 0, true, unknown, r.state.(beginSeen := beginSeen));
  }

  /** After such an include no earlier error is left. */
  lemma IncludeClears(
      w: Words, text: string, i: nat, j: nat, k: nat, l: nat, end: nat, x: string, y: string, unknown: nat,
      st: State)
    requires Included(w, text, i, j, k, l, end, x, y) && Ready(st)
    requires FindAbi(w, text, 0, Some(y)) == FoundAt(k, false)
    ensures Fine(Walk(w, text, i, x, 0, true, unknown, st))
  {
    EmptyAbiIsRead(w, text, k, l, end, y, 1, st.(beginSeen := false));
    WalkTurn(w, text, i, j, IncludeAbi(y, false), x, 0, true, unknown, st);
    ResumeEnds(w, text, NestedRead(w, text, y, 1, st), j, k, x, unknown, st.beginSeen);
  }

  /** The words for beginning, including and ending an abi, and two abis. */
  datatype Names = Names(begins: string, includes: string, ends: string, x: string, y: string)

  predicate Knows(w: Words, c: Names) {
    && IsWord(c.begins) && IsWord(c.includes) && IsWord(c.ends) && IsWord(c.x) && IsWord(c.y)
    && |c.begins| < 50 && |c.includes| < 50 && |c.ends| < 50 && |c.x| < 40 && |c.y| < 40
    && w.beginName == c.begins && c.begins != c.includes && c.begins != c.ends && c.x != c.y
    && w.optionName != c.begins && w.optionName != c.includes && w.optionName != c.ends && w.optionName != c.x
    && w.optionName != ""
    && Lookup(w.comtable, 0, c.begins) == Some(KBeginAbi)
    && Lookup(w.comtable, 0, c.includes) == Some(KIncludeAbi)
    && Lookup(w.comtable, 0, c.ends) == Some(KEndAbi)
  }

  /** The four lines at n: x includes y and ends; y begins and ends. */
  predicate HasInner(c: Names, lines: seq<string>, n: nat) {
    && n + 4 <= |lines|
    && lines[n] == CommandLine(c.includes, 1, c.y) && lines[n + 1] == CommandLine(c.ends, 1, c.x)
    && lines[n + 2] == CommandLine(c.begins, 1, c.y) && lines[n + 3] == CommandLine(c.ends, 1, c.y)
  }

  lemma IncludeStands(w: Words, c: Names, f: File, k: nat, i: nat, end: nat)
    requires f.Valid() && Knows(w, c) && k < |f.lines| && f.o[k] == i && f.o[k + 1] == end
    requires f.lines[k] == CommandLine(c.includes, 1, c.y)
    ensures i < |f.text| && Parses(w, f.text, i, end, IncludeAbi(c.y, false))
    ensures Sees(f.text, i, end, c.includes, c.y)
  {
    CommandHolds(w, f, k, c.includes, c.y, KIncludeAbi, IncludeAbi(c.y, false));
  }

  lemma BeginStands(w: Words, c: Names, f: File, k: nat, i: nat, end: nat, name: string)
    requires f.Valid() && Knows(w, c) && k < |f.lines| && f.o[k] == i && f.o[k + 1] == end
    requires IsWord(name) && |name| < 40 && f.lines[k] == CommandLine(c.begins, 1, name)
    ensures i < |f.text| && Parses(w, f.text, i, end, BeginAbi(name, false))
    ensures Sees(f.text, i, end, c.begins, name)
  {
    CommandHolds(w, f, k, c.begins, name, KBeginAbi, BeginAbi(name, false));
  }

  lemma EndStands(w: Words, c: Names, f: File, k: nat, i: nat, end: nat, name: string)
    requires f.Valid() && Knows(w, c) && k < |f.lines| && f.o[k] == i && f.o[k + 1] == end
    requires IsWord(name) && |name| < 40 && f.lines[k] == CommandLine(c.ends, 1, name)
    ensures i < |f.text| && Parses(w, f.text, i, end, EndAbi(name, false))
    ensures Sees(f.text, i, end, c.ends, name)
  {
    CommandHolds(w, f, k, c.ends, name, KEndAbi, EndAbi(name, false));
  }

  /** Line k begins y.  From i on the search finds it, and when it looks for x
      it gets to end. */
  predicate InnerIsSearched(w: Words, c: Names, text: string, i: nat, k: nat, end: nat)
    requires i <= |text| && end <= |text|
  {
    && FindAbi(w, text, i, Some(c.y)) == FoundAt(k, false)
    && FindAbi(w, text, i, Some(c.x)) == FindAbi(w, text, end, Some(c.x))
  }

  /** The four lines at n, and where they start and end. */
  predicate InnerAt(c: Names, f: File, n: nat, i: nat, j: nat, k: nat, l: nat, end: nat)
    requires f.Valid()
  {
    && HasInner(c, f.lines, n)
    && f.o[n] == i && f.o[n + 1] == j && f.o[n + 2] == k && f.o[n + 3] == l && f.o[n + 4] == end
  }

  lemma InnerIsThere(w: Words, c: Names, f: File, n: nat, i: nat, j: nat, k: nat, l: nat, end: nat)
    requires f.Valid() && Knows(w, c) && InnerAt(c, f, n, i, j, k, l, end)
    ensures Included(w, f.text, i, j, k, l, end, c.x, c.y)
    ensures i <= |f.text| && end <= |f.text| && InnerIsSearched(w, c, f.text, i, k, end)
  {
    FirstTwo(w, c, f, n, i, j, k, l, end);
    LastTwo(w, c, f, n, i, j, k, l, end);
  }

  lemma FirstTwo(w: Words, c: Names, f: File, n: nat, i: nat, j: nat, k: nat, l: nat, end: nat)
    requires f.Valid() && Knows(w, c) && InnerAt(c, f, n, i, j, k, l, end)
    ensures i < |f.text| && Parses(w, f.text, i, j, IncludeAbi(c.y, false))
    ensures j < |f.text| && Parses(w, f.text, j, k, EndAbi(c.x, false))
    ensures k <= |f.text| && FindAbi(w, f.text, i, Some(c.y)) == FindAbi(w, f.text, k, Some(c.y))
    ensures FindAbi(w, f.text, i, Some(c.x)) == FindAbi(w, f.text, k, Some(c.x))
  {
    IncludeStands(w, c, f, n, i, j);
    EndStands(w, c, f, n + 1, j, k, c.x);
    StepsOver(w, f.text, i, j, c.includes, c.y, c.x);
    StepsOver(w, f.text, j, k, c.ends, c.x, c.x);
    StepsOver(w, f.text, i, j, c.includes, c.y, c.y);
    StepsOver(w, f.text, j, k, c.ends, c.x, c.y);
  }

  lemma LastTwo(w: Words, c: Names, f: File, n: nat, i: nat, j: nat, k: nat, l: nat, end: nat)
    requires f.Valid() && Knows(w, c) && InnerAt(c, f, n, i, j, k, l, end)
    ensures k < |f.text| && Parses(w, f.text, k, l, BeginAbi(c.y, false))
    ensures l < |f.text| && Parses(w, f.text, l, end, EndAbi(c.y, false))
    ensures FindAbi(w, f.text, k, Some(c.y)) == FoundAt(k, false)
    ensures end <= |f.text| && FindAbi(w, f.text, k, Some(c.x)) == FindAbi(w, f.text, end, Some(c.x))
  {
    BeginStands(w, c, f, n + 2, k, l, c.y);
    EndStands(w, c, f, n + 3, l, end, c.y);
    StepsOver(w, f.text, k, l, c.begins, c.y, c.x);
    StepsOver(w, f.text, l, end, c.ends, c.y, c.x);
  }

  // ----- an error that is lost

  /** x begins, an unknown word stands alone on a line, x includes y and ends;
      y begins and ends. */
  predicate HasLostError(w: Words, c: Names, lines: seq<string>, foo: string) {
    && |lines| >= 6 && IsWord(foo) && |foo| < 90 && Lookup(w.comtable, 0, foo).None? && foo != w.optionName
    && lines[0] == CommandLine(c.begins, 1, c.x) && lines[1] == foo + "\n" && HasInner(c, lines, 2)
  }

  /** The unknown word is an error, and yet reading x succeeds. */
  lemma ErrorIsLost(w: Words, c: Names, f: File, foo: string, st: State)
    requires f.Valid() && Knows(w, c) && HasLostError(w, c, f.lines, foo) && Ready(st) && !st.beginSeen
    ensures Holds(w, f, 1, Unknown, foo, "")
    ensures GivesAbi(Read(w, f.text, Some(c.x), 0, st))
  {
    CommandHolds(w, f, 0, c.begins, c.x, KBeginAbi, BeginAbi(c.x, false));
    UnknownHolds(w, f, 1, foo);
    InnerIsThere(w, c, f, 2, f.o[2], f.o[3], f.o[4], f.o[5], f.o[6]);
    LostErrorIsSearched(w, c, f, foo);
    LostErrorIsWalked(w, f.text, f.o[1], f.o[2], f.o[3], f.o[4], f.o[5], f.o[6], c.x, c.y, st);
  }

  lemma LostErrorIsSearched(w: Words, c: Names, f: File, foo: string)
    requires f.Valid() && Knows(w, c) && |f.lines| >= 6 && foo != w.optionName
    requires Holds(w, f, 0, BeginAbi(c.x, false), c.begins, c.x) && Holds(w, f, 1, Unknown, foo, "")
    requires f.o[2] <= |f.text| && f.o[6] <= |f.text| && InnerIsSearched(w, c, f.text, f.o[2], f.o[4], f.o[6])
    ensures FindAbi(w, f.text, 0, Some(c.x)) == FoundAt(0, false)
    ensures FindAbi(w, f.text, 0, Some(c.y)) == FoundAt(f.o[4], false)
  {
    StepsOver(w, f.text, 0, f.o[1], c.begins, c.x, c.y);
    StepsOver(w, f.text, f.o[1], f.o[2], foo, "", c.y);
  }

  lemma LostErrorIsWalked(
      w: Words, text: string, i: nat, j: nat, k: nat, l: nat, m: nat, end: nat, x: string, y: string, st: State)
    requires 0 < |text| && Parses(w, text, 0, i, BeginAbi(x, false))
    requires i < |text| && Parses(w, text, i, j, Unknown) && Included(w, text, j, k, l, m, end, x, y)
    requires FindAbi(w, text, 0, Some(x)) == FoundAt(0, false) && FindAbi(w, text, 0, Some(y)) == FoundAt(l, false)
    requires Ready(st) && !st.beginSeen
    ensures GivesAbi(Read(w, text, Some(x), 0, st))
  {
    var st0 := Bump(Fresh(w, text, Some(x), st), 0);
    var st1 := Open(st0, x, x, false);
    IncludeClears(w, text, j, k, l, m, end, x, y, 1, Bump(st1, 1));
    WalkTurn(w, text, i, j, Unknown, x, 0, true, 0, st1);
    WalkTurn(w, text, 0, i, BeginAbi(x, false), x, 0, false, 0, st0);
    ReadStarts(w, text, x, st);
  }

  // ----- an abi that is missed and read

  /** The name of x stands where the buffer of the search is full; x includes y
      and ends; y begins and ends. */
  predicate HasLongLine(c: Names, lines: seq<string>, gap: nat) {
    && |lines| >= 5 && gap >= 1 && |c.begins| + gap == FIND_LIMIT
    && lines[0] == CommandLine(c.begins, gap, c.x) && HasInner(c, lines, 1)
  }

  /** The search finds y, and passes over all five lines when it looks for x. */
  lemma FiveLinesAreSearched(w: Words, c: Names, f: File, gap: nat)
    requires f.Valid() && Knows(w, c) && HasLongLine(c, f.lines, gap)
    ensures f.o[5] <= |f.text| && InnerIsSearched(w, c, f.text, 0, f.o[3], f.o[5])
  {
    LongLineIsSeen(f, f.o[1], c.begins, gap, c.x);
    InnerIsThere(w, c, f, 1, f.o[1], f.o[2], f.o[3], f.o[4], f.o[5]);
    LongLineIsSearched(w, c, f.text, f.o[1], f.o[3], f.o[5]);
  }

  lemma LongLineIsSearched(w: Words, c: Names, text: string, i: nat, k: nat, end: nat)
    requires Knows(w, c) && i <= |text| && end <= |text| && InnerIsSearched(w, c, text, i, k, end)
    requires FIND_LIMIT < |text| && Sees(text, 0, FIND_LIMIT, c.begins, "") && Sees(text, FIND_LIMIT, i, c.x, "")
    ensures InnerIsSearched(w, c, text, 0, k, end)
  {
    forall abi | abi == c.x || abi == c.y ensures FindAbi(w, text, 0, Some(abi)) == FindAbi(w, text, i, Some(abi)) {
      StepsOver(w, text, 0, FIND_LIMIT, c.begins, "", abi);
      StepsOver(w, text, FIND_LIMIT, i, c.x, "", abi);
    }
  }

  /** A comment that is not terminated, at the end of the file. */
  lemma CommentEnds(w: Words, text: string, n: nat, abi: string)
    requires n + 1 == |text| && text[n] == '#' && w.beginName != "" && w.optionName != ""
    ensures FindAbi(w, text, n, Some(abi)) == FoundAt(0, true)
  {
    assert LineEnd(text, n, FIND_LIMIT) == LineEnd(text, n + 1, FIND_LIMIT - 1) == n + 1;
    assert text[n..n + 1] == "#";
    LineAtIsCString(text, n, n + 1);
    assert GetToken("#", 0) == Token("", 0);
  }

  /** A terminated one. */
  lemma CommentIsPassed(w: Words, f: File, k: nat, abi: string)
    requires f.Valid() && k < |f.lines| && f.lines[k] == "#\n" && w.beginName != "" && w.optionName != ""
    ensures f.o[k] <= |f.text| && f.o[k + 1] <= |f.text|
    ensures FindAbi(w, f.text, f.o[k], Some(abi)) == FindAbi(w, f.text, f.o[k + 1], Some(abi))
  {
    assert SkipWhite("#\n", 0) == 0 && GetToken("#\n", 0) == Token("", 0);
    IsSeenAt(f, k, f.o[k], f.o[k + 1], "", "");
    StepsOver(w, f.text, f.o[k], f.o[k + 1], "", "", abi);
  }

  /** The search misses x, and yet reading x succeeds. */
  lemma MissedIsRead(w: Words, c: Names, f: File, gap: nat, st: State)
    requires f.Valid() && Knows(w, c) && HasLongLine(c, f.lines, gap) && Ready(st) && !st.beginSeen
    requires f.o[5] + 1 == |f.text| && f.text[f.o[5]] == '#'
    ensures FindAbi(w, f.text, 0, Some(c.x)) == FoundAt(0, true)
    ensures GivesAbi(Read(w, f.text, Some(c.x), 0, st))
  {
    FiveLinesAreSearched(w, c, f, gap);
    CommentEnds(w, f.text, f.o[5], c.x);
    CommandParses(w, f, 0, 0, f.o[1], c.begins, gap, c.x, KBeginAbi, BeginAbi(c.x, false));
    InnerIsThere(w, c, f, 1, f.o[1], f.o[2], f.o[3], f.o[4], f.o[5]);
    MissedIsWalked(w, f.text, f.o[1], f.o[2], f.o[3], f.o[4], f.o[5], c.x, c.y, st);
  }

  lemma MissedIsWalked(
      w: Words, text: string, i: nat, j: nat, k: nat, l: nat, end: nat, x: string, y: string, st: State)
    requires 0 < |text| && Parses(w, text, 0, i, BeginAbi(x, false)) && Included(w, text, i, j, k, l, end, x, y)
    requires FindAbi(w, text, 0, Some(x)) == FoundAt(0, true) && FindAbi(w, text, 0, Some(y)) == FoundAt(k, false)
    requires Ready(st) && !st.beginSeen
    ensures GivesAbi(Read(w, text, Some(x), 0, st))
  {
    var st0 := Bump(Fresh(w, text, Some(x), st), 1);
    var st1 := Open(st0, x, x, false);
    IncludeClears(w, text, i, j, k, l, end, x, y, 0, st1);
    WalkTurn(w, text, 0, i, BeginAbi(x, false), x, 0, false, 0, st0);
    ReadStarts(w, text, x, st);
  }

  /** With a newline behind the comment reading x fails. */
  lemma TerminatedIsMissed(w: Words, c: Names, f: File, gap: nat, st: State)
    requires f.Valid() && Knows(w, c) && HasLongLine(c, f.lines, gap)
    requires |f.lines| == 6 && f.lines[5] == "#\n" && f.o[6] == |f.text|
    ensures FindAbi(w, f.text, 0, Some(c.x)) == FoundNothing
    ensures Read(w, f.text, Some(c.x), 0, st).outcome == ReadError
  {
    FiveLinesAreSearched(w, c, f, gap);
    CommentIsPassed(w, f, 5, c.x);
  }

  // ----- the files

  const NAMES := Names("beginabi:", "includeabi:", "endabi:", "x", "y")

  const LOST := [
    "beginabi: x\n",
    "foo\n",
    "includeabi: y\n",
    "endabi: x\n",
    "beginabi: y\n",
    "endabi: y\n",
    REMARK]

  const REMARK := "# Nobody is told of the unknown word.\n"

  const GAP := 90

  const MISSED := [
    "beginabi:" + Repeat(' ', GAP) + "x\n",
    "includeabi: y\n",
    "endabi: x\n",
    "beginabi: y\n",
    "endabi: y\n"]

  lemma BeginIsKnown()
    ensures Lookup(DWARFDUMP_WORDS.comtable, 0, "beginabi:") == Some(KBeginAbi)
  {
  }

  lemma IncludeIsKnown()
    ensures Lookup(DWARFDUMP_WORDS.comtable, 0, "includeabi:") == Some(KIncludeAbi)
  {
    assert Lookup(DWARFDUMP_WORDS.comtable, 9, "includeabi:") == Some(KIncludeAbi);
  }

  lemma EndIsKnown()
    ensures Lookup(DWARFDUMP_WORDS.comtable, 0, "endabi:") == Some(KEndAbi)
  {
    assert Lookup(DWARFDUMP_WORDS.comtable, 10, "endabi:") == Some(KEndAbi);
  }

  lemma NamesAreKnown()
    ensures Knows(DWARFDUMP_WORDS, NAMES)
  {
    BeginIsKnown();
    IncludeIsKnown();
    EndIsKnown();
  }

  lemma FooIsUnknown()
    ensures IsWord("foo") && Lookup(DWARFDUMP_WORDS.comtable, 0, "foo").None?
  {
    var table := DWARFDUMP_WORDS.comtable;
    assert Lookup(table, 9, "foo").None?;
    assert Lookup(table, 6, "foo").None?;
    assert Lookup(table, 3, "foo").None?;
  }

  /** With one blank before the name. */
  lemma OneBlank(word: string, name: string)
    ensures CommandLine(word, 1, name) == word + (" " + (name + "\n"))
  {
    assert Repeat(' ', 1) == " ";
  }

  lemma InnerIsWritten(lines: seq<string>, n: nat)
    requires n + 4 <= |lines| && lines[n] == "includeabi: y\n" && lines[n + 1] == "endabi: x\n"
    requires lines[n + 2] == "beginabi: y\n" && lines[n + 3] == "endabi: y\n"
    ensures HasInner(NAMES, lines, n)
  {
    OneBlank("includeabi:", "y");
    OneBlank("endabi:", "x");
    OneBlank("beginabi:", "y");
    OneBlank("endabi:", "y");
  }

  lemma LostIsWritten()
    ensures HasLostError(DWARFDUMP_WORDS, NAMES, LOST, "foo")
  {
    FooIsUnknown();
    OneBlank("beginabi:", "x");
    InnerIsWritten(LOST, 2);
  }

  lemma MissedIsWritten(more: seq<string>)
    ensures HasLongLine(NAMES, MISSED + more, GAP)
  {
    InnerIsWritten(MISSED + more, 1);
  }

  /** A line that is_this_text_file finds short enough anywhere. */
  predicate IsShort(s: string) {
    IsLine(s) && |s| <= LONGEST
  }

  lemma CommandIsShort(word: string, name: string)
    requires IsWord(word) && IsWord(name) && |word| + |name| < 90
    ensures IsShort(word + (" " + (name + "\n")))
  {
    OneBlank(word, name);
    CommandIsLine(word, 1, name);
  }

  lemma InnerIsShort(lines: seq<string>, n: nat)
    requires n + 4 <= |lines| && lines[n] == "includeabi: y\n" && lines[n + 1] == "endabi: x\n"
    requires lines[n + 2] == "beginabi: y\n" && lines[n + 3] == "endabi: y\n"
    ensures forall k :: n <= k < n + 4 ==> IsShort(lines[k])
  {
    CommandIsShort("includeabi:", "y");
    CommandIsShort("endabi:", "x");
    CommandIsShort("beginabi:", "y");
    CommandIsShort("endabi:", "y");
  }

  lemma LostIsShort()
    ensures ShortLines(LOST)
  {
    CommandIsShort("beginabi:", "x");
    InnerIsShort(LOST, 2);
    assert IsShort("foo\n");
    RemarkIsShort();
    assert forall k :: 0 <= k < |LOST| ==> IsShort(LOST[k]);
  }

  lemma RemarkIsShort()
    ensures IsShort(REMARK)
  {
  }

  lemma LostLength(f: File)
    requires f.Valid() && f.lines == LOST
    ensures f.o[7] == 100
  {
    assert f.LaidAt(0) && f.LaidAt(1) && f.LaidAt(2) && f.LaidAt(3) && f.LaidAt(4) && f.LaidAt(5) && f.LaidAt(6);
  }

  lemma MissedLength(f: File)
    requires f.Valid() && |f.lines| >= 5 && f.lines[..5] == MISSED
    ensures f.o[5] == 147
  {
    assert f.LaidAt(0) && f.LaidAt(1) && f.LaidAt(2) && f.LaidAt(3) && f.LaidAt(4);
  }

  lemma MissedIsShort(more: seq<string>)
    requires forall k :: 0 <= k < |more| ==> IsShort(more[k])
    ensures ShortLines(MISSED + more)
  {
    var lines := MISSED + more;
    CommandIsLine("beginabi:", GAP, "x");
    CommandLength("beginabi:", GAP, "x");
    InnerIsShort(lines, 1);
    forall k | 0 <= k < |lines| ensures IsLine(lines[k]) && |lines[k]| <= if k == 0 then LONGEST + 1 else LONGEST {
      if k >= 5 {
        assert lines[k] == more[k - 5];
      }
    }
  }

  lemma FitsIsText(text: string)
    requires LinesFit(text) && AllText(text) && |text| >= SMALLEST
    ensures LooksLikeText(text)
  {
  }

  lemma LostIsText(f: File)
    requires f == FileOf(LOST, "")
    ensures f.Valid() && LooksLikeText(f.text)
  {
    LostIsShort();
    JoinedFits(LOST);
    assert f.text == Joined(LOST);
    FileIsValid(LOST, "");
    LostLength(f);
    FitsIsText(f.text);
  }

  /** The program takes this file for text, its second line is an error, and the
      read of x succeeds from the defaults. */
  lemma ErrorIsLostInFile()
    ensures var f := FileOf(LOST, "");
      && f.Valid() && LooksLikeText(f.text)
      && Holds(DWARFDUMP_WORDS, f, 1, Unknown, "foo", "")
      && GivesAbi(Read(DWARFDUMP_WORDS, f.text, Some("x"), 0, START))
  {
    var f := FileOf(LOST, "");
    LostIsText(f);
    NamesAreKnown();
    LostIsWritten();
    ErrorIsLost(DWARFDUMP_WORDS, NAMES, f, "foo", START);
  }

  lemma MissedIsText(f: File)
    requires f == FileOf(MISSED, "#")
    ensures f.Valid() && LooksLikeText(f.text) && f.o[5] + 1 == |f.text| && f.text[f.o[5]] == '#'
  {
    MissedIsShort([]);
    assert MISSED + [] == MISSED && MISSED[..5] == MISSED;
    JoinedFits(MISSED);
    LinesFitMore(Joined(MISSED), "#");
    FileIsValid(MISSED, "#");
    MissedLength(f);
    FitsIsText(f.text);
  }

  /** The program takes this file for text, the search for x does not find it,
      and the read of x succeeds from the defaults. */
  lemma MissedIsReadInFile()
    ensures var text := FileOf(MISSED, "#").text;
      && LooksLikeText(text)
      && FindAbi(DWARFDUMP_WORDS, text, 0, Some("x")) == FoundAt(0, true)
      && GivesAbi(Read(DWARFDUMP_WORDS, text, Some("x"), 0, START))
  {
    var f := FileOf(MISSED, "#");
    MissedIsText(f);
    NamesAreKnown();
    MissedIsWritten([]);
    assert MISSED + [] == MISSED;
    MissedIsRead(DWARFDUMP_WORDS, NAMES, f, GAP, START);
  }

  lemma TerminatedIsText(f: File)
    requires f == FileOf(MISSED + ["#\n"], "")
    ensures f.Valid() && LooksLikeText(f.text) && f.o[6] == |f.text|
  {
    var lines := MISSED + ["#\n"];
    assert IsShort("#\n");
    MissedIsShort(["#\n"]);
    JoinedFits(lines);
    assert f.text == Joined(lines) && lines[..5] == MISSED;
    FileIsValid(lines, "");
    MissedLength(f);
    assert f.LaidAt(5);
    FitsIsText(f.text);
  }

  /** With one newline more it fails. */
  lemma TerminatedIsMissedInFile()
    ensures var text := FileOf(MISSED + ["#\n"], "").text;
      && LooksLikeText(text)
      && FindAbi(DWARFDUMP_WORDS, text, 0, Some("x")) == FoundNothing
      && Read(DWARFDUMP_WORDS, text, Some("x"), 0, START).outcome == ReadError
  {
    var f := FileOf(MISSED + ["#\n"], "");
    TerminatedIsText(f);
    NamesAreKnown();
    MissedIsWritten(["#\n"]);
    TerminatedIsMissed(DWARFDUMP_WORDS, NAMES, f, GAP, START);
  }
}
