/** Configuration files as lists of lines, and what the two readers of
    dd_dwconf.c see of each line. */
module DwConfLines {
  import opened CText
  import opened DwConfText
  import opened DwConfSpec
  import opened ReadOutcome

  // ----- lines

  /** A line: text up to one newline. */
  predicate IsLine(s: string) {
    && s != "" && s[|s| - 1] == '\n'
    && forall k :: 0 <= k < |s| - 1 ==> s[k] != '\n' && IsText(s[k])
  }

  function Joined(lines: seq<string>): string {
    if lines == [] then "" else Joined(lines[..|lines| - 1]) + lines[|lines| - 1]
  }

  /** Where line k starts. */
  function Offset(lines: seq<string>, k: nat): nat
    requires k <= |lines|
  {
    |Joined(lines[..k])|
  }

  /** The line stands at i. */
  predicate StandsAt(text: string, i: nat, line: string) {
    i + |line| <= |text| && text[i..i + |line|] == line
  }

  lemma {:induction false} LinePlace(lines: seq<string>, tail: string, k: nat)
    requires k < |lines|
    ensures StandsAt(Joined(lines) + tail, Offset(lines, k), lines[k])
    ensures Offset(lines, k + 1) == Offset(lines, k) + |lines[k]|
    decreases |lines|
  {
    var front, last := lines[..|lines| - 1], lines[|lines| - 1];
    assert Joined(lines) + tail == Joined(front) + (last + tail);
    assert lines[..k + 1][..k] == lines[..k];
    if k >= |front| {
      assert lines[..k] == front;
    } else {
      LinePlace(front, last + tail, k);
      assert lines[..k] == front[..k];
    }
  }

  /** A text and where its lines start, one behind the other. */
  datatype File = File(text: string, lines: seq<string>, o: seq<nat>) {
    predicate Valid() {
      && |o| == |lines| + 1 && o[0] == 0
      && forall k {:trigger LaidAt(k)} :: 0 <= k < |lines| ==> LaidAt(k)
    }

    predicate LaidAt(k: nat)
      requires k < |lines| && |o| == |lines| + 1
    {
      StandsAt(text, o[k], lines[k]) && o[k + 1] == o[k] + |lines[k]|
    }
  }

  /** The file of some lines and what follows the last of them. */
  function FileOf(lines: seq<string>, tail: string): File {
    File(Joined(lines) + tail, lines, seq(|lines| + 1, k requires 0 <= k <= |lines| => Offset(lines, k)))
  }

  lemma FileIsValid(lines: seq<string>, tail: string)
    ensures FileOf(lines, tail).Valid()
    ensures FileOf(lines, tail).o[|lines|] == |Joined(lines)|
  {
    var f := FileOf(lines, tail);
    forall k | 0 <= k < |lines| ensures f.LaidAt(k) {
      LinePlace(lines, tail, k);
    }
    assert lines[..|lines|] == lines;
  }

  lemma {:induction false} EndOfLine(text: string, i: nat, n: nat, limit: nat)
    requires i + n < |text| && n < limit && text[i + n] == '\n'
    requires forall k :: i <= k < i + n ==> text[k] != '\n'
    ensures LineEnd(text, i, limit) == i + n + 1
    decreases n
  {
    if n == 0 {
    } else {
      EndOfLine(text, i + 1, n - 1, limit - 1);
    }
  }

  /** A line that fits the buffer is read as a whole. */
  lemma LineIsRead(text: string, i: nat, line: string, limit: nat)
    requires StandsAt(text, i, line) && IsLine(line) && |line| <= limit
    ensures LineEnd(text, i, limit) == i + |line| && !HitsEnd(text, i, limit)
    ensures LineAt(text, i, i + |line|) == line
  {
    forall k | 0 <= k < |line| ensures text[i + k] == line[k] && line[k] != NUL {
      assert text[i + k] == text[i..i + |line|][k];
    }
    EndOfLine(text, i, |line| - 1, limit);
    LineAtIsCString(text, i, i + |line|);
  }

  // ----- lines of a command and a name

  predicate IsWord(s: string) {
    s != "" && forall k :: 0 <= k < |s| ==> !IsSpace(s[k]) && s[k] != '#' && IsText(s[k])
  }

  function CommandLine(word: string, gap: nat, name: string): string {
    word + Repeat(' ', gap) + name + "\n"
  }

  lemma {:induction false} SkipTo(s: string, i: nat, j: nat)
    requires i <= j <= |s| && (j < |s| ==> !IsSpace(s[j]))
    requires forall k :: i <= k < j ==> IsSpace(s[k])
    ensures SkipWhite(s, i) == j
    decreases j - i
  {
    if i == j {
    } else {
      SkipTo(s, i + 1, j);
    }
  }

  lemma {:induction false} TokenTo(s: string, i: nat, j: nat)
    requires i <= j <= |s| && (j < |s| ==> IsSpace(s[j]) || s[j] == '#')
    requires forall k :: i <= k < j ==> !IsSpace(s[k]) && s[k] != '#'
    ensures TokenEnd(s, i) == j
    decreases j - i
  {
    if i == j {
    } else {
      TokenTo(s, i + 1, j);
    }
  }

  /** The token behind white space. */
  lemma TokenIs(s: string, i: nat, j: nat, token: string)
    requires i <= j && StandsAt(s, j, token)
    requires forall k :: i <= k < j ==> IsSpace(s[k])
    requires forall k :: 0 <= k < |token| ==> !IsSpace(token[k]) && token[k] != '#'
    requires j + |token| < |s| ==> IsSpace(s[j + |token|]) || s[j + |token|] == '#'
    requires token == "" ==> j == |s|
    ensures GetToken(s, i) == Token(token, j + |token|) && SkipWhite(s, i) == j
  {
    forall k | 0 <= k < |token| ensures s[j + k] == token[k] {
      assert s[j + k] == s[j..j + |token|][k];
    }
    SkipTo(s, i, j);
    TokenTo(s, j, j + |token|);
  }

  lemma CommandChars(word: string, gap: nat, name: string)
    ensures var s := CommandLine(word, gap, name); var n := |word| + gap;
      && |s| == n + |name| + 1 && s[|s| - 1] == '\n'
      && StandsAt(s, 0, word) && StandsAt(s, n, name)
      && (forall k :: |word| <= k < n ==> s[k] == ' ')
  {
    var s, n := CommandLine(word, gap, name), |word| + gap;
    assert s[..|word|] == word && s[n..n + |name|] == name;
    forall k | |word| <= k < n ensures s[k] == ' ' {
      assert s[k] == Repeat(' ', gap)[k - |word|];
    }
  }

  lemma CommandTokens(word: string, gap: nat, name: string)
    requires IsWord(word) && IsWord(name) && gap >= 1
    ensures var s := CommandLine(word, gap, name); var n := |word| + gap + |name|;
      && SkipWhite(s, 0) == 0 && GetToken(s, 0) == Token(word, |word|)
      && GetToken(s, |word|) == GetToken(s, |word| + 1) == Token(name, n)
      && GetToken(s, n) == Token("", |s|)
  {
    var s, n := CommandLine(word, gap, name), |word| + gap;
    CommandChars(word, gap, name);
    TokenIs(s, 0, 0, word);
    TokenIs(s, |word|, n, name);
    TokenIs(s, |word| + 1, n, name);
    TokenIs(s, n + |name|, |s|, "");
  }

  lemma CommandIsLine(word: string, gap: nat, name: string)
    requires IsWord(word) && IsWord(name)
    ensures IsLine(CommandLine(word, gap, name))
  {
    var s, n := CommandLine(word, gap, name), |word| + gap;
    CommandChars(word, gap, name);
    forall k | 0 <= k < |s| - 1 ensures s[k] != '\n' && IsText(s[k]) {
      if k < |word| {
        assert s[k] == s[0..|word|][k];
      } else if k >= n {
        assert s[k] == s[n..n + |name|][k - n];
      }
    }
  }

  /** What parse_abi makes of it. */
  function LineOf(kind: Kind, name: string): Line
    requires kind.KBeginAbi? || kind.KEndAbi? || kind.KIncludeAbi?
  {
    if kind.KBeginAbi? then BeginAbi(name, false)
    else if kind.KEndAbi? then EndAbi(name, false) else IncludeAbi(name, false)
  }

  /** parse_abi takes s for this line. */
  predicate Says(w: Words, s: string, line: Line) {
    CommandIsSpaced(w, s) && ParseLine(w, s) == line
  }

  lemma CommandSays(w: Words, s: string, word: string, gap: nat, name: string, kind: Kind, line: Line)
    requires IsWord(word) && IsWord(name) && gap >= 1 && s == CommandLine(word, gap, name)
    requires Lookup(w.comtable, 0, word) == Some(kind) && (kind.KBeginAbi? || kind.KEndAbi? || kind.KIncludeAbi?)
    requires line == LineOf(kind, name)
    ensures Says(w, s, line)
  {
    CommandChars(word, gap, name);
    CommandTokens(word, gap, name);
    assert s[0] == s[0..|word|][0];
  }

  /** The search sees these tokens in s. */
  predicate Shows(s: string, word: string, operand: string) {
    var t := GetToken(s, 0);
    t.text == word && GetToken(s, t.next).text == operand
  }

  lemma CommandShows(word: string, gap: nat, name: string)
    requires IsWord(word) && IsWord(name) && gap >= 1
    ensures Shows(CommandLine(word, gap, name), word, name)
  {
    CommandTokens(word, gap, name);
  }

  // ----- lines of one word

  lemma WordLineSays(w: Words, word: string)
    requires IsWord(word) && Lookup(w.comtable, 0, word).None?
    ensures Says(w, word + "\n", Unknown)
  {
    WordLineTokens(word);
    assert (word + "\n")[0] == word[0];
  }

  lemma WordLineTokens(word: string)
    requires IsWord(word)
    ensures var s := word + "\n";
      SkipWhite(s, 0) == 0 && GetToken(s, 0) == Token(word, |word|) && GetToken(s, |word|) == Token("", |s|)
  {
    var s := word + "\n";
    assert s[0..|word|] == word;
    TokenIs(s, 0, 0, word);
    TokenIs(s, |word|, |s|, "");
  }

  // ----- the program takes the files for text

  /** Every newline ends a line that is short enough. */
  predicate LinesFit(text: string) {
    forall p :: 0 <= p < |text| && text[p] == '\n' ==> LineFits(text, p)
  }

  predicate AllText(text: string) {
    forall k :: 0 <= k < |text| ==> IsText(text[k])
  }

  lemma LinesFitMore(text: string, more: string)
    requires LinesFit(text) && AllText(text)
    requires |more| > 0 && AllText(more) && forall k :: 0 <= k < |more| - 1 ==> more[k] != '\n'
    requires text == "" || text[|text| - 1] == '\n'
    requires |more| <= if text == "" then LONGEST + 1 else LONGEST
    ensures LinesFit(text + more) && AllText(text + more)
  {
    var all := text + more;
    forall p | 0 <= p < |all| && all[p] == '\n' ensures LineFits(all, p) {
      if p < |text| {
        assert LineFits(text, p);
        if q :| p - LONGEST <= q < p && 0 <= q && text[q] == '\n' {
          assert all[q] == '\n';
        }
      } else if text != "" {
        assert all[|text| - 1] == '\n';
      }
    }
  }

  /** Lines of at most 99 characters, the first one of at most 100. */
  predicate ShortLines(lines: seq<string>) {
    forall k :: 0 <= k < |lines| ==> IsLine(lines[k]) && |lines[k]| <= if k == 0 then LONGEST + 1 else LONGEST
  }

  lemma {:induction false} JoinedFits(lines: seq<string>)
    requires ShortLines(lines)
    ensures LinesFit(Joined(lines)) && AllText(Joined(lines))
    ensures lines == [] <==> Joined(lines) == ""
    ensures lines != [] ==> Joined(lines)[|Joined(lines)| - 1] == '\n'
    decreases |lines|
  {
    if lines == [] {
    } else {
      var front, last := lines[..|lines| - 1], lines[|lines| - 1];
      JoinedFits(front);
      LinesFitMore(Joined(front), last);
    }
  }

  // ----- what is read where

  /** parse_abi reads up to end and finds this line. */
  predicate Parses(w: Words, text: string, i: nat, end: nat, line: Line)
    requires i < |text|
  {
    LineEnd(text, i, PARSE_LIMIT) == end && Says(w, LineAt(text, i, end), line)
  }

  /** The search reads up to end, does not meet the end of the file, and sees
      these tokens. */
  predicate Sees(text: string, i: nat, end: nat, word: string, operand: string)
    requires i < |text|
  {
    && LineEnd(text, i, FIND_LIMIT) == end && !HitsEnd(text, i, FIND_LIMIT)
    && Shows(LineAt(text, i, end), word, operand)
  }

  lemma LineParses(w: Words, text: string, i: nat, end: nat, s: string, line: Line)
    requires StandsAt(text, i, s) && end == i + |s| && IsLine(s) && |s| <= PARSE_LIMIT && Says(w, s, line)
    ensures i < |text| && Parses(w, text, i, end, line)
  {
    LineIsRead(text, i, s, PARSE_LIMIT);
  }

  lemma LineIsSeen(text: string, i: nat, end: nat, s: string, word: string, operand: string)
    requires StandsAt(text, i, s) && end == i + |s| && IsLine(s) && |s| <= FIND_LIMIT && Shows(s, word, operand)
    ensures i < |text| && Sees(text, i, end, word, operand)
  {
    LineIsRead(text, i, s, FIND_LIMIT);
  }

  // ----- a line longer than the buffer of the search

  lemma {:induction false} FullBuffer(text: string, i: nat, limit: nat)
    requires i + limit <= |text|
    requires forall k :: i <= k < i + limit ==> text[k] != '\n'
    ensures LineEnd(text, i, limit) == i + limit
    decreases limit
  {
    if limit == 0 {
    } else {
      FullBuffer(text, i + 1, limit - 1);
    }
  }

  lemma BlankTokens(word: string, gap: nat)
    requires IsWord(word) && gap >= 1
    ensures Shows(word + Repeat(' ', gap), word, "")
  {
    var s := word + Repeat(' ', gap);
    assert s[0..|word|] == word;
    forall k | |word| <= k < |s| ensures s[k] == ' ' {
      assert s[k] == Repeat(' ', gap)[k - |word|];
    }
    TokenIs(s, 0, 0, word);
    TokenIs(s, |word|, |s|, "");
  }

  /** A read that fills the buffer of the search. */
  lemma BufferIsSeen(text: string, s: string, word: string, operand: string)
    requires StandsAt(text, 0, s) && |s| == FIND_LIMIT && Shows(s, word, operand)
    requires forall k :: 0 <= k < |s| ==> s[k] != '\n' && IsText(s[k])
    ensures text != "" && Sees(text, 0, FIND_LIMIT, word, operand)
  {
    forall k | 0 <= k < FIND_LIMIT ensures text[k] == s[k] && text[k] != '\n' && text[k] != NUL {
      assert text[k] == text[0..|s|][k];
    }
    FullBuffer(text, 0, FIND_LIMIT);
    LineAtIsCString(text, 0, FIND_LIMIT);
  }

  lemma LongLineParts(text: string, word: string, gap: nat, name: string)
    requires StandsAt(text, 0, CommandLine(word, gap, name))
    ensures StandsAt(text, 0, word + Repeat(' ', gap)) && StandsAt(text, |word| + gap, name + "\n")
  {
    var s, front, back := CommandLine(word, gap, name), word + Repeat(' ', gap), name + "\n";
    assert s == front + back && text[..|s|] == s;
    assert text[0..|front|] == s[0..|front|] && text[|front|..|s|] == s[|front|..];
  }

  /** The first read of the search. */
  lemma FirstRead(text: string, word: string, gap: nat)
    requires IsWord(word) && gap >= 1 && |word| + gap == FIND_LIMIT && StandsAt(text, 0, word + Repeat(' ', gap))
    ensures text != "" && Sees(text, 0, FIND_LIMIT, word, "")
  {
    var s := word + Repeat(' ', gap);
    forall k | 0 <= k < |s| ensures s[k] != '\n' && IsText(s[k]) {
      if k >= |word| {
        assert s[k] == Repeat(' ', gap)[k - |word|];
      }
    }
    BlankTokens(word, gap);
    BufferIsSeen(text, s, word, "");
  }

  /** The second one. */
  lemma SecondRead(text: string, i: nat, end: nat, name: string)
    requires IsWord(name) && |name| < 90 && StandsAt(text, i, name + "\n") && end == i + |name| + 1
    ensures i < |text| && Sees(text, i, end, name, "")
  {
    WordLineTokens(name);
    LineIsSeen(text, i, end, name + "\n", name, "");
  }

  // ----- lines of a file

  /** Line k is taken whole by both readers: what each makes of it. */
  predicate Holds(w: Words, f: File, k: nat, line: Line, word: string, operand: string)
    requires f.Valid()
  {
    && k < |f.lines| && f.o[k] < |f.text|
    && Parses(w, f.text, f.o[k], f.o[k + 1], line) && Sees(f.text, f.o[k], f.o[k + 1], word, operand)
  }

  lemma ParsesAt(w: Words, f: File, k: nat, i: nat, end: nat, line: Line)
    requires f.Valid() && k < |f.lines| && f.o[k] == i && f.o[k + 1] == end
    requires IsLine(f.lines[k]) && |f.lines[k]| <= PARSE_LIMIT && Says(w, f.lines[k], line)
    ensures i < |f.text| && Parses(w, f.text, i, end, line)
  {
    assert f.LaidAt(k);
    LineParses(w, f.text, i, end, f.lines[k], line);
  }

  lemma IsSeenAt(f: File, k: nat, i: nat, end: nat, word: string, operand: string)
    requires f.Valid() && k < |f.lines| && f.o[k] == i && f.o[k + 1] == end
    requires IsLine(f.lines[k]) && |f.lines[k]| <= FIND_LIMIT && Shows(f.lines[k], word, operand)
    ensures i < |f.text| && Sees(f.text, i, end, word, operand)
  {
    assert f.LaidAt(k);
    LineIsSeen(f.text, i, end, f.lines[k], word, operand);
  }

  lemma CommandParses(
      w: Words, f: File, k: nat, i: nat, end: nat, word: string, gap: nat, name: string, kind: Kind, line: Line)
    requires f.Valid() && k < |f.lines| && f.lines[k] == CommandLine(word, gap, name)
    requires IsWord(word) && IsWord(name) && gap >= 1 && |word| + gap + |name| < PARSE_LIMIT
    requires Lookup(w.comtable, 0, word) == Some(kind) && (kind.KBeginAbi? || kind.KEndAbi? || kind.KIncludeAbi?)
    requires f.o[k] == i && f.o[k + 1] == end && line == LineOf(kind, name)
    ensures i < |f.text| && Parses(w, f.text, i, end, line)
  {
    CommandLength(word, gap, name);
    CommandIsLine(word, gap, name);
    CommandSays(w, f.lines[k], word, gap, name, kind, line);
    ParsesAt(w, f, k, i, end, line);
  }

  lemma CommandHolds(w: Words, f: File, k: nat, word: string, name: string, kind: Kind, line: Line)
    requires f.Valid() && k < |f.lines| && f.lines[k] == CommandLine(word, 1, name)
    requires IsWord(word) && IsWord(name) && |word| + |name| < 90
    requires Lookup(w.comtable, 0, word) == Some(kind) && (kind.KBeginAbi? || kind.KEndAbi? || kind.KIncludeAbi?)
    requires line == LineOf(kind, name)
    ensures Holds(w, f, k, line, word, name)
  {
    CommandLength(word, 1, name);
    CommandIsLine(word, 1, name);
    CommandShows(word, 1, name);
    CommandParses(w, f, k, f.o[k], f.o[k + 1], word, 1, name, kind, line);
    IsSeenAt(f, k, f.o[k], f.o[k + 1], word, name);
  }

  lemma CommandLength(word: string, gap: nat, name: string)
    ensures |CommandLine(word, gap, name)| == |word| + gap + |name| + 1
  {
  }

  lemma UnknownHolds(w: Words, f: File, k: nat, word: string)
    requires f.Valid() && k < |f.lines| && f.lines[k] == word + "\n"
    requires IsWord(word) && |word| < 90 && Lookup(w.comtable, 0, word).None?
    ensures Holds(w, f, k, Unknown, word, "")
  {
    WordLineSays(w, word);
    WordLineTokens(word);
    ParsesAt(w, f, k, f.o[k], f.o[k + 1], Unknown);
    IsSeenAt(f, k, f.o[k], f.o[k + 1], word, "");
  }

  /** A first line of which the search reads 99 characters, and then the name. */
  lemma LongLineIsSeen(f: File, end: nat, word: string, gap: nat, name: string)
    requires f.Valid() && f.lines != [] && f.lines[0] == CommandLine(word, gap, name) && end == f.o[1]
    requires IsWord(word) && IsWord(name) && gap >= 1 && |word| + gap == FIND_LIMIT && |name| < 90
    ensures FIND_LIMIT < |f.text| && Sees(f.text, 0, FIND_LIMIT, word, "")
    ensures Sees(f.text, FIND_LIMIT, end, name, "")
  {
    assert f.LaidAt(0);
    CommandLength(word, gap, name);
    LongLineParts(f.text, word, gap, name);
    FirstRead(f.text, word, gap);
    SecondRead(f.text, FIND_LIMIT, end, name);
  }

  // ----- turns of the search and of the walk

  lemma StepsOver(w: Words, text: string, i: nat, end: nat, word: string, operand: string, abi: string)
    requires i < |text| && Sees(text, i, end, word, operand)
    requires word != w.optionName && !(word == w.beginName && operand == abi)
    ensures FindAbi(w, text, i, Some(abi)) == FindAbi(w, text, end, Some(abi))
  {
  }

  lemma WalkTurn(
      w: Words, text: string, i: nat, end: nat, line: Line, abi: string, level: nat, inAbi: bool, unknown: nat,
      st: State)
    requires i < |text| && Parses(w, text, i, end, line) && level <= MAX_NEST_LEVEL && !st.Stopped()
    ensures Walk(w, text, i, abi, level, inAbi, unknown, st)
      == WalkLine(w, text, line, end, abi, level, inAbi, unknown, st)
  {
  }

  /** The outermost read, once the search has come back with an offset. */
  lemma ReadStarts(w: Words, text: string, abi: string, st: State)
    requires FindAbi(w, text, 0, Some(abi)).FoundAt?
    ensures var found := FindAbi(w, text, 0, Some(abi));
      var st0 := Bump(Fresh(w, text, Some(abi), st), Counted(found));
      && Read(w, text, Some(abi), 0, st) == Judged(Walk(w, text, found.offset, abi, 0, false, 0, st0))
      && (Fine(Walk(w, text, found.offset, abi, 0, false, 0, st0)) ==> GivesAbi(Read(w, text, Some(abi), 0, st)))
  {
    var found := FindAbi(w, text, 0, Some(abi));
    var st0 := Bump(Fresh(w, text, Some(abi), st), Counted(found));
    assert Read(w, text, Some(abi), 0, st) == AfterSearch(w, text, found, Some(abi), 0, st0);
  }
}
