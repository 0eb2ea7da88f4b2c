/** What the option scanner of dd_getopt.c returns, call by call and over a
    whole command line, and the laws it obeys. */
module GetoptSpec {
  import opened CText

  const END := -1
  const BADCH := '?' as int
  const BADARG := ':' as int

  /** struct dwoption, without the unused flag; hasArg is 0 for no argument,
      1 for a required one, anything else for an optional one. */
  datatype LongOption = LongOption(name: string, hasArg: int, val: int)

  /** The scanner's view of the command line: what is left of the current
      word, the words from dwoptind on, and dwoptarg.  While place is not
      empty the first of the words is the one it belongs to. */
  datatype Scan = Scan(place: string, rest: seq<string>, arg: Option<string>) {
    predicate Valid() {
      place != "" ==> rest != []
    }
  }

  datatype ArgKind = Unlisted | NoArg | RequiredArg | OptionalArg

  /** The entry of an option letter in the option string. */
  function KindOf(ostr: string, c: char): ArgKind {
    if c == ':' then Unlisted else KindFrom(ostr, 0, c)
  }

  function KindFrom(ostr: string, i: nat, c: char): ArgKind
    requires i <= |ostr|
    decreases |ostr| - i
  {
    if i == |ostr| then Unlisted
    else if ostr[i] != c then KindFrom(ostr, i + 1, c)
    else if At(ostr, i + 1) != ':' then NoArg
    else if At(ostr, i + 2) != ':' then RequiredArg
    else OptionalArg
  }

  /** dwgetopt once the letter is c and p follows it in the same word. */
  function Letter(ostr: string, c: char, p: string, s: Scan): (r: (int, Scan))
    requires s.rest != []
    ensures r.1.Valid()
  {
    var past := if p == "" then s.rest[1..] else s.rest;
    match KindOf(ostr, c)
    case Unlisted => (BADCH, Scan(p, past, s.arg))
    case NoArg => (c as int, Scan(p, past, None))
    case RequiredArg =>
      if p != "" then (c as int, Scan("", s.rest[1..], Some(p)))
      else if |s.rest| > 1 then (c as int, Scan("", s.rest[2..], Some(s.rest[1])))
      else (if At(ostr, 0) == ':' then BADARG else BADCH, Scan("", s.rest[1..], s.arg))
    case OptionalArg =>
      (c as int, Scan("", s.rest[1..], if p != "" then Some(p) else None))
  }

  /** dwgetopt. */
  function ShortStep(ostr: string, s: Scan): (r: (int, Scan))
    requires s.Valid()
    ensures r.1.Valid()
  {
    if s.place != "" then Letter(ostr, s.place[0], s.place[1..], s)
    else if s.rest == [] || s.rest[0] == "" || s.rest[0][0] != '-' then (END, s)
    else
      var w := s.rest[0];
      if |w| == 1 then (if '-' in ostr then Letter(ostr, '-', "", s) else (END, s))
      else if w[1] == '-' && |w| == 2 then (END, s.(rest := s.rest[1..]))
      else Letter(ostr, w[1], w[2..], s)
  }

  /** The first '=' in s, or its end. */
  function EqualsAt(s: string, i: nat): (n: nat)
    requires i <= |s|
    ensures i <= n <= |s|
    decreases |s| - i
  {
    if i == |s| || s[i] == '=' then i else EqualsAt(s, i + 1)
  }

  /** dwoptnamematches: no match, a match with an argument error, or a match
      with its argument. */
  datatype Matched = NoMatch | ArgError | Match(arg: Option<string>)

  function NameMatches(opt: LongOption, s: string): Matched {
    var e := EqualsAt(s, 0);
    if e < |s| && e != |opt.name| then NoMatch
    else if 0 < e < |s| then
      if s[..e] != opt.name then NoMatch
      else if opt.hasArg == 0 then ArgError
      else Match(if e + 1 < |s| then Some(s[e + 1..]) else None)
    else
      if s != opt.name then NoMatch
      else if opt.hasArg == 1 then ArgError
      else Match(None)
  }

  /** The search of the long option table from entry k on. */
  function LongFrom(table: seq<LongOption>, k: nat, name: string, s: Scan): (r: (int, Scan))
    requires k <= |table| && s.rest != [] && s.place == ""
    ensures r.1.place == ""
    decreases |table| - k
  {
    if k == |table| then (BADCH, s.(rest := s.rest[1..]))
    else
      match NameMatches(table[k], name)
      case NoMatch => LongFrom(table, k + 1, name, s)
      case ArgError => (BADCH, Scan("", s.rest[1..], None))
      case Match(arg) => (table[k].val, Scan("", s.rest[1..], arg))
  }

  /** Which entry that is, if its argument is as it must be. */
  function MatchFrom(table: seq<LongOption>, k: nat, name: string): (index: Option<nat>)
    requires k <= |table|
    decreases |table| - k
  {
    if k == |table| then None
    else
      match NameMatches(table[k], name)
      case NoMatch => MatchFrom(table, k + 1, name)
      case ArgError => None
      case Match(_) => Some(k)
  }

  function FirstMatch(table: seq<LongOption>, name: string): Option<nat> {
    MatchFrom(table, 0, name)
  }

  /** A whole word of a long option comes next. */
  predicate IsLongWord(s: Scan) {
    s.place == "" && s.rest != [] && StartsLong(s.rest[0]) && |s.rest[0]| > 2
  }

  predicate StartsLong(w: string) {
    |w| >= 2 && w[0] == '-' && w[1] == '-'
  }

  /** dwgetopt_long. */
  function Step(ostr: string, table: seq<LongOption>, s: Scan): (r: (int, Scan))
    requires s.Valid()
    ensures r.1.Valid()
  {
    if s.place != "" || s.rest == [] || !StartsLong(s.rest[0]) then ShortStep(ostr, s)
    else if |s.rest[0]| == 2 then (END, s.(rest := s.rest[1..]))
    else LongFrom(table, 0, s.rest[0][2..], s)
  }

  // ----- progress

  function Size(words: seq<string>): nat {
    if words == [] then 0 else |words[0]| + 1 + Size(words[1..])
  }

  /** The characters and words still to be scanned. */
  function Unscanned(s: Scan): nat
    requires s.Valid()
  {
    if s.place != "" then |s.place| + Size(s.rest[1..]) else Size(s.rest)
  }

  lemma LetterProgress(ostr: string, c: char, p: string, s: Scan)
    requires s.rest != []
    ensures Unscanned(Letter(ostr, c, p, s).1) <= |p| + Size(s.rest[1..])
  {
    if |s.rest| > 1 {
      assert s.rest[2..] == s.rest[1..][1..];
    }
  }

  lemma {:induction false} LongRest(table: seq<LongOption>, k: nat, name: string, s: Scan)
    requires k <= |table| && s.rest != [] && s.place == ""
    ensures LongFrom(table, k, name, s).1.rest == s.rest[1..]
    decreases |table| - k
  {
    if k == |table| || !NameMatches(table[k], name).NoMatch? {
    } else {
      LongRest(table, k + 1, name, s);
    }
  }

  /** Every call returns END or leaves strictly less to scan. */
  lemma StepProgress(ostr: string, table: seq<LongOption>, s: Scan)
    requires s.Valid()
    ensures Step(ostr, table, s).0 == END || Unscanned(Step(ostr, table, s).1) < Unscanned(s)
  {
    if s.place != "" {
      LetterProgress(ostr, s.place[0], s.place[1..], s);
    } else if s.rest != [] {
      var w := s.rest[0];
      if StartsLong(w) {
        LongRest(table, 0, w[2..], s);
      } else if |w| == 1 {
        LetterProgress(ostr, '-', "", s);
      } else if |w| >= 2 {
        LetterProgress(ostr, w[1], w[2..], s);
      }
    }
  }

  // ----- whole command lines

  datatype Got = Got(value: int, arg: Option<string>)

  /** Calls dwgetopt_long until it returns -1: what the calls returned, and
      the state they left. */
  function Run(ostr: string, table: seq<LongOption>, s: Scan): (r: (seq<Got>, Scan))
    requires s.Valid()
    decreases Unscanned(s)
  {
    StepProgress(ostr, table, s);
    var (v, next) := Step(ostr, table, s);
    if v == END then ([], next)
    else
      var (more, last) := Run(ostr, table, next);
      ([Got(v, next.arg)] + more, last)
  }

  lemma RunCons(ostr: string, table: seq<LongOption>, s: Scan, v: int, next: Scan)
    requires s.Valid() && Step(ostr, table, s) == (v, next) && v != END
    ensures next.Valid()
    ensures Run(ostr, table, s) == ([Got(v, next.arg)] + Run(ostr, table, next).0, Run(ostr, table, next).1)
  {
  }

  // ----- options as a caller would write them

  datatype Opt =
    | Flag(c: char)
    | Joined(c: char, arg: string)
    | Separate(c: char, arg: string)
    | Optional(c: char, optArg: Option<string>)
    | Long(k: nat, longArg: Option<string>)

  predicate Distinct(table: seq<LongOption>) {
    forall i, j :: 0 <= i < j < |table| ==> table[i].name != table[j].name
  }

  predicate ValidOpt(ostr: string, table: seq<LongOption>, o: Opt) {
    match o
    case Flag(c) => KindOf(ostr, c) == NoArg
    case Joined(c, arg) => c != '-' && KindOf(ostr, c) == RequiredArg && arg != ""
    case Separate(c, arg) => KindOf(ostr, c) == RequiredArg
    case Optional(c, arg) => KindOf(ostr, c) == OptionalArg && arg != Some("") && (c == '-' ==> arg.None?)
    case Long(k, arg) =>
      && k < |table| && table[k].name != "" && '=' !in table[k].name && table[k].val != END
      && arg != Some("")
      && (table[k].hasArg == 0 ==> arg.None?)
      && (table[k].hasArg == 1 ==> arg.Some?)
  }

  /** The word of a letter; the letter '-' is a lone '-'. */
  function Short(c: char): string {
    if c == '-' then "-" else ['-', c]
  }

  /** The words an option is written as. */
  function Words(table: seq<LongOption>, o: Opt): seq<string>
    requires o.Long? ==> o.k < |table|
  {
    match o
    case Flag(c) => [Short(c)]
    case Joined(c, arg) => [Short(c) + arg]
    case Separate(c, arg) => [Short(c), arg]
    case Optional(c, arg) => [Short(c) + (if arg.Some? then arg.value else "")]
    case Long(k, arg) => ["--" + table[k].name + (if arg.Some? then "=" + arg.value else "")]
  }

  /** What dwgetopt_long is to return for it. */
  function Expected(table: seq<LongOption>, o: Opt): Got
    requires o.Long? ==> o.k < |table|
  {
    match o
    case Flag(c) => Got(c as int, None)
    case Joined(c, arg) => Got(c as int, Some(arg))
    case Separate(c, arg) => Got(c as int, Some(arg))
    case Optional(c, arg) => Got(c as int, arg)
    case Long(k, arg) => Got(table[k].val, arg)
  }

  lemma {:induction false} EqualsAtOf(s: string, i: nat, n: nat)
    requires i <= n <= |s| && (n < |s| ==> s[n] == '=')
    requires forall k :: i <= k < n ==> s[k] != '='
    ensures EqualsAt(s, i) == n
    decreases n - i
  {
    if i >= n {
    } else {
      EqualsAtOf(s, i + 1, n);
    }
  }

  /** A written long option matches its own name and no other. */
  lemma WrittenNameMatches(opt: LongOption, name: string, arg: Option<string>, text: string)
    requires '=' !in name && name != ""
    requires text == name + (if arg.Some? then "=" + arg.value else "")
    requires arg != Some("")
    ensures opt.name != name ==> NameMatches(opt, text).NoMatch?
    ensures opt.name == name && !(opt.hasArg == 0 && arg.Some?) && !(opt.hasArg == 1 && arg.None?) ==>
      NameMatches(opt, text) == Match(arg)
  {
    assert text[..|name|] == name;
    assert forall k :: 0 <= k < |name| ==> text[k] == name[k];
    EqualsAtOf(text, 0, |name|);
    if arg.Some? {
      assert text[|name| + 1..] == arg.value;
    } else {
      assert text == name;
    }
  }

  lemma {:induction false} WrittenLong(table: seq<LongOption>, i: nat, k: nat, arg: Option<string>, text: string,
      s: Scan)
    requires i <= k < |table| && s.rest != [] && s.place == "" && Distinct(table)
    requires ValidOpt("", table, Long(k, arg))
    requires text == table[k].name + (if arg.Some? then "=" + arg.value else "")
    ensures LongFrom(table, i, text, s) == (table[k].val, Scan("", s.rest[1..], arg))
    decreases k - i
  {
    WrittenNameMatches(table[i], table[k].name, arg, text);
    if i >= k {
    } else {
      WrittenLong(table, i + 1, k, arg, text, s);
    }
  }

  lemma {:induction false} ListedOccurs(ostr: string, i: nat, c: char)
    requires i <= |ostr| && KindFrom(ostr, i, c) != Unlisted
    ensures c in ostr
    decreases |ostr| - i
  {
    if i == |ostr| || ostr[i] == c {
    } else {
      ListedOccurs(ostr, i + 1, c);
    }
  }

  /** The word of a listed letter, with something attached or not, is scanned
      as that letter. */
  lemma ShortIsScanned(ostr: string, table: seq<LongOption>, c: char, more: string, s: Scan)
    requires KindOf(ostr, c) != Unlisted && (c == '-' ==> more == "")
    requires s.place == "" && s.rest != [] && s.rest[0] == Short(c) + more
    ensures Step(ostr, table, s) == Letter(ostr, c, more, s)
  {
    ListedOccurs(ostr, 0, c);
    if c != '-' {
      assert s.rest[0][2..] == more;
    }
  }

  /** One written option is one call, which leaves the words after it. */
  lemma WrittenStep(ostr: string, table: seq<LongOption>, o: Opt, tail: seq<string>, arg0: Option<string>)
    requires ValidOpt(ostr, table, o) && Distinct(table)
    ensures Step(ostr, table, Scan("", Words(table, o) + tail, arg0))
      == (Expected(table, o).value, Scan("", tail, Expected(table, o).arg))
  {
    var words := Words(table, o);
    var s := Scan("", words + tail, arg0);
    assert s.rest[0] == words[0];
    assert s.rest[1..] == words[1..] + tail;
    match o
    case Long(k, arg) =>
      assert words[0][2..] == table[k].name + (if arg.Some? then "=" + arg.value else "");
      WrittenLong(table, 0, k, arg, words[0][2..], s);
      assert s.rest[1..] == tail;
    case Separate(c, arg) =>
      ShortIsScanned(ostr, table, c, "", s);
      assert s.rest[1] == arg && s.rest[2..] == tail;
    case Flag(c) =>
      ShortIsScanned(ostr, table, c, "", s);
      assert s.rest[1..] == tail;
    case Joined(c, arg) =>
      ShortIsScanned(ostr, table, c, arg, s);
      assert s.rest[1..] == tail;
    case Optional(c, arg) =>
      ShortIsScanned(ostr, table, c, if arg.Some? then arg.value else "", s);
      assert s.rest[1..] == tail;
  }

  predicate ValidOpts(ostr: string, table: seq<LongOption>, opts: seq<Opt>) {
    forall i :: 0 <= i < |opts| ==> ValidOpt(ostr, table, opts[i])
  }

  function AllWords(table: seq<LongOption>, opts: seq<Opt>): seq<string>
    requires forall i :: 0 <= i < |opts| && opts[i].Long? ==> opts[i].k < |table|
  {
    if opts == [] then [] else Words(table, opts[0]) + AllWords(table, opts[1..])
  }

  function AllExpected(table: seq<LongOption>, opts: seq<Opt>): seq<Got>
    requires forall i :: 0 <= i < |opts| && opts[i].Long? ==> opts[i].k < |table|
  {
    if opts == [] then [] else [Expected(table, opts[0])] + AllExpected(table, opts[1..])
  }

  /** dwoptarg after the options, when it was arg0 before them. */
  function LastArg(table: seq<LongOption>, opts: seq<Opt>, arg0: Option<string>): Option<string>
    requires forall i :: 0 <= i < |opts| && opts[i].Long? ==> opts[i].k < |table|
  {
    if opts == [] then arg0 else LastArg(table, opts[1..], Expected(table, opts[0]).arg)
  }

  /** Written options are returned in order, whatever follows them. */
  lemma {:induction false} WrittenOptions(
      ostr: string, table: seq<LongOption>, opts: seq<Opt>, tail: seq<string>, arg0: Option<string>)
    requires Distinct(table) && ValidOpts(ostr, table, opts)
    ensures var r := Run(ostr, table, Scan("", tail, LastArg(table, opts, arg0)));
      Run(ostr, table, Scan("", AllWords(table, opts) + tail, arg0)) == (AllExpected(table, opts) + r.0, r.1)
    decreases |opts|
  {
    if opts == [] {
      assert AllWords(table, opts) + tail == tail;
      var r := Run(ostr, table, Scan("", tail, arg0));
      assert [] + r.0 == r.0;
    } else {
      var o, rest := opts[0], opts[1..];
      var after := AllWords(table, rest) + tail;
      var g := Expected(table, o);
      assert AllWords(table, opts) + tail == Words(table, o) + after;
      WrittenStep(ostr, table, o, after, arg0);
      RunCons(ostr, table, Scan("", Words(table, o) + after, arg0), g.value, Scan("", after, g.arg));
      WrittenOptions(ostr, table, rest, tail, g.arg);
      ConsAssoc(g, AllExpected(table, rest), Run(ostr, table, Scan("", tail, LastArg(table, rest, g.arg))).0);
    }
  }

  lemma ConsAssoc(g: Got, a: seq<Got>, b: seq<Got>)
    ensures [g] + (a + b) == ([g] + a) + b
  {
  }

  predicate StartsOperands(words: seq<string>) {
    words == [] || words[0] == "" || words[0][0] != '-'
  }

  /** The round trip: scanning written options and then operands returns the
      options and stops at the first operand. */
  lemma RoundTrip(ostr: string, table: seq<LongOption>, opts: seq<Opt>, operands: seq<string>, arg0: Option<string>)
    requires Distinct(table) && ValidOpts(ostr, table, opts) && StartsOperands(operands)
    ensures Run(ostr, table, Scan("", AllWords(table, opts) + operands, arg0))
      == (AllExpected(table, opts), Scan("", operands, LastArg(table, opts, arg0)))
  {
    WrittenOptions(ostr, table, opts, operands, arg0);
    assert AllExpected(table, opts) + [] == AllExpected(table, opts);
  }

  // ----- clusters and attached arguments

  /** While a word is being scanned, only what is left of it matters. */
  lemma {:induction false} WordDoesNotMatter(
      ostr: string, table: seq<LongOption>, p: string, w1: string, w2: string, post: seq<string>, arg: Option<string>)
    requires p != ""
    ensures Run(ostr, table, Scan(p, [w1] + post, arg)) == Run(ostr, table, Scan(p, [w2] + post, arg))
    decreases |p|
  {
    var s1, s2 := Scan(p, [w1] + post, arg), Scan(p, [w2] + post, arg);
    assert s1.rest[1..] == post && s2.rest[1..] == post;
    if post != [] {
      assert s1.rest[2..] == post[1..] && s2.rest[2..] == post[1..];
    }
    if |p| > 1 && KindOf(ostr, p[0]) in {Unlisted, NoArg} {
      var arg' := if KindOf(ostr, p[0]) == NoArg then None else arg;
      WordDoesNotMatter(ostr, table, p[1..], w1, w2, post, arg');
    }
  }

  /** The letter, listed or not, does not look for an argument.  The letter
      '-' must be listed, because alone it would be an operand. */
  predicate TakesNoArg(ostr: string, a: char) {
    KindOf(ostr, a).NoArg? || (KindOf(ostr, a).Unlisted? && a != '-')
  }

  /** What such a letter returns, and dwoptarg after it. */
  function ValueOf(ostr: string, a: char): int {
    if KindOf(ostr, a) == NoArg then a as int else BADCH
  }

  function ArgAfter(ostr: string, a: char, arg: Option<string>): Option<string> {
    if KindOf(ostr, a) == NoArg then None else arg
  }

  /** A letter without an argument, alone in its word. */
  lemma AloneLetter(ostr: string, table: seq<LongOption>, a: char, tail: seq<string>, arg: Option<string>)
    requires TakesNoArg(ostr, a)
    ensures Step(ostr, table, Scan("", [Short(a)] + tail, arg))
      == (ValueOf(ostr, a), Scan("", tail, ArgAfter(ostr, a, arg)))
  {
    var words := [Short(a)] + tail;
    assert words[1..] == tail;
    if a == '-' {
      ListedOccurs(ostr, 0, a);
    } else {
      assert Short(a)[2..] == "";
    }
  }

  /** A first letter without an argument, more letters behind it. */
  lemma FirstLetter(
      ostr: string, table: seq<LongOption>, a: char, more: string, tail: seq<string>, arg: Option<string>)
    requires TakesNoArg(ostr, a) && a != '-' && more != ""
    ensures var words := [['-', a] + more] + tail;
      Step(ostr, table, Scan("", words, arg)) == (ValueOf(ostr, a), Scan(more, words, ArgAfter(ostr, a, arg)))
  {
    var words := [['-', a] + more] + tail;
    assert words[0][2..] == more && words[1..] == tail;
  }

  /** Words that a scan in the middle of more has reached may begin with it. */
  lemma AtDash(ostr: string, table: seq<LongOption>, w0: string, more: string, post: seq<string>, arg: Option<string>)
    requires more != "" && more[0] != '-'
    ensures Run(ostr, table, Scan(more, [w0] + post, arg)) == Run(ostr, table, Scan("", [['-'] + more] + post, arg))
  {
    var w := ['-'] + more;
    assert w[1] == more[0] && w[2..] == more[1..];
    WordDoesNotMatter(ostr, table, more, w0, w, post, arg);
    SameStep(ostr, table, Scan(more, [w] + post, arg), Scan("", [w] + post, arg));
  }

  lemma SameStep(ostr: string, table: seq<LongOption>, s1: Scan, s2: Scan)
    requires s1.Valid() && s2.Valid() && Step(ostr, table, s1) == Step(ostr, table, s2)
    ensures Run(ostr, table, s1) == Run(ostr, table, s2)
  {
  }

  /** -aREST is -a -REST when the letter a takes no argument, whatever REST is
      (more letters, or a letter with its argument) and whatever follows. */
  lemma SplitCluster(ostr: string, table: seq<LongOption>, a: char, more: string, post: seq<string>,
      arg: Option<string>)
    requires TakesNoArg(ostr, a) && a != '-' && more != "" && more[0] != '-'
    ensures Run(ostr, table, Scan("", [['-', a] + more] + post, arg))
      == Run(ostr, table, Scan("", [['-', a]] + ([['-'] + more] + post), arg))
  {
    var together, apart := [['-', a] + more] + post, [['-', a]] + ([['-'] + more] + post);
    var v, arg' := ValueOf(ostr, a), ArgAfter(ostr, a, arg);
    FirstLetter(ostr, table, a, more, post, arg);
    AloneLetter(ostr, table, a, [['-'] + more] + post, arg);
    RunCons(ostr, table, Scan("", together, arg), v, Scan(more, together, arg'));
    RunCons(ostr, table, Scan("", apart, arg), v, Scan("", [['-'] + more] + post, arg'));
    AtDash(ostr, table, ['-', a] + more, more, post, arg');
  }

  /** The words of a cluster with one letter each. */
  function OneByOne(letters: string): seq<string> {
    if letters == "" then [] else [Short(letters[0])] + OneByOne(letters[1..])
  }

  predicate AllTakeNoArg(ostr: string, letters: string) {
    forall i :: 0 <= i < |letters| ==> TakesNoArg(ostr, letters[i])
  }

  /** Letters still to be scanned in a word are scanned as words of their own. */
  lemma {:induction false} LettersAreOneByOne(
      ostr: string, table: seq<LongOption>, letters: string, w: string, post: seq<string>, arg: Option<string>)
    requires letters != "" && AllTakeNoArg(ostr, letters)
    ensures Run(ostr, table, Scan(letters, [w] + post, arg))
      == Run(ostr, table, Scan("", OneByOne(letters) + post, arg))
    decreases |letters|
  {
    var a, more := letters[0], letters[1..];
    var v, arg' := ValueOf(ostr, a), ArgAfter(ostr, a, arg);
    assert ([w] + post)[1..] == post && TakesNoArg(ostr, a);
    assert OneByOne(letters) + post == [Short(a)] + (OneByOne(more) + post);
    var next := Scan(more, if more == "" then post else [w] + post, arg');
    RunCons(ostr, table, Scan(letters, [w] + post, arg), v, next);
    AloneLetter(ostr, table, a, OneByOne(more) + post, arg);
    RunCons(ostr, table, Scan("", OneByOne(letters) + post, arg), v, Scan("", OneByOne(more) + post, arg'));
    if more == "" {
      assert OneByOne(more) + post == post;
    } else {
      LettersAreOneByOne(ostr, table, more, w, post, arg');
    }
  }

  /** Guideline 5 of section 12.2 of the POSIX.1-2017 Base Definitions: letters
      without arguments may be grouped behind one '-'.  A listed '-' may be one
      of them, but not the first: "--" begins a long option. */
  lemma ClusterIsOneByOne(
      ostr: string, table: seq<LongOption>, letters: string, post: seq<string>, arg: Option<string>)
    requires letters != "" && letters[0] != '-' && AllTakeNoArg(ostr, letters)
    ensures Run(ostr, table, Scan("", [['-'] + letters] + post, arg))
      == Run(ostr, table, Scan("", OneByOne(letters) + post, arg))
  {
    AtDash(ostr, table, ['-'] + letters, letters, post, arg);
    LettersAreOneByOne(ostr, table, letters, ['-'] + letters, post, arg);
  }

  /** Guidelines 6 and 7: a required argument may be attached or separate. */
  lemma AttachedIsSeparate(
      ostr: string, table: seq<LongOption>, c: char, optArg: string, post: seq<string>, arg: Option<string>)
    requires c != '-' && KindOf(ostr, c) == RequiredArg && optArg != ""
    ensures Run(ostr, table, Scan("", [['-', c] + optArg] + post, arg))
      == Run(ostr, table, Scan("", [['-', c], optArg] + post, arg))
  {
    var attached, separate := [['-', c] + optArg] + post, [['-', c], optArg] + post;
    assert attached[0][2..] == optArg && attached[1..] == post;
    assert separate[0][2..] == "" && separate[1] == optArg && separate[2..] == post;
  }

  // ----- the same anywhere on a command line

  /** What scanning some words comes to when more words follow them: the scan
      reaches the words behind, or ends before, or its last letter asks for the
      next word as its argument. */
  datatype Through =
    | Reaches(got: seq<Got>, arg: Option<string>)
    | Ends(got: seq<Got>, left: Scan)
    | Asks

  /** The letter that comes next wants an argument that these words lack. */
  predicate AsksForMore(ostr: string, s: Scan)
    requires s.Valid() && s.rest != []
  {
    |s.rest| == 1 &&
    var w := s.rest[0];
    if s.place != "" then |s.place| == 1 && KindOf(ostr, s.place[0]) == RequiredArg
    else if w == "-" then '-' in ostr && KindOf(ostr, '-') == RequiredArg
    else |w| == 2 && w[0] == '-' && w[1] != '-' && KindOf(ostr, w[1]) == RequiredArg
  }

  function ScanThrough(ostr: string, table: seq<LongOption>, s: Scan): Through
    requires s.Valid()
    decreases Unscanned(s)
  {
    if s.rest == [] then Reaches([], s.arg)
    else if AsksForMore(ostr, s) then Asks
    else
      StepProgress(ostr, table, s);
      var (v, next) := Step(ostr, table, s);
      if v == END then Ends([], next) else Consed(Got(v, next.arg), ScanThrough(ostr, table, next))
  }

  function Consed(g: Got, t: Through): Through {
    match t
    case Reaches(got, arg) => Reaches([g] + got, arg)
    case Ends(got, left) => Ends([g] + got, left)
    case Asks => Asks
  }

  function Before(s: Scan, tail: seq<string>): Scan {
    s.(rest := s.rest + tail)
  }

  /** A call does not look past the words it has, unless it asks for more. */
  lemma StepIsLocal(ostr: string, table: seq<LongOption>, s: Scan, tail: seq<string>)
    requires s.Valid() && s.rest != [] && !AsksForMore(ostr, s)
    ensures var (v, next) := Step(ostr, table, s);
      Step(ostr, table, Before(s, tail)) == (v, Before(next, tail))
  {
    var w, words := s.rest[0], s.rest + tail;
    assert words[0] == w && words[1..] == s.rest[1..] + tail;
    if |s.rest| > 1 {
      assert words[1] == s.rest[1] && words[2..] == s.rest[2..] + tail;
    }
    if s.place == "" && StartsLong(w) {
      LongIsLocal(table, 0, w[2..], s, tail);
    }
  }

  lemma {:induction false} LongIsLocal(table: seq<LongOption>, k: nat, name: string, s: Scan, tail: seq<string>)
    requires k <= |table| && s.rest != [] && s.place == ""
    ensures var (v, next) := LongFrom(table, k, name, s);
      LongFrom(table, k, name, Before(s, tail)) == (v, Before(next, tail))
    decreases |table| - k
  {
    assert (s.rest + tail)[1..] == s.rest[1..] + tail;
    if k == |table| || !NameMatches(table[k], name).NoMatch? {
    } else {
      LongIsLocal(table, k + 1, name, s, tail);
    }
  }

  /** Scanning words and what follows them is scanning the words, and then
      what follows. */
  lemma {:induction false} ScanInTwo(ostr: string, table: seq<LongOption>, s: Scan, tail: seq<string>)
    requires s.Valid()
    ensures match ScanThrough(ostr, table, s)
      case Reaches(got, arg) =>
        var r := Run(ostr, table, Scan("", tail, arg));
        Run(ostr, table, Before(s, tail)) == (got + r.0, r.1)
      case Ends(got, left) => Run(ostr, table, Before(s, tail)) == (got, Before(left, tail))
      case Asks => true
    decreases Unscanned(s)
  {
    if s.rest == [] {
      assert s.rest + tail == tail;
      var r := Run(ostr, table, Scan("", tail, s.arg));
      assert [] + r.0 == r.0;
    } else if !AsksForMore(ostr, s) {
      StepProgress(ostr, table, s);
      StepIsLocal(ostr, table, s, tail);
      var (v, next) := Step(ostr, table, s);
      if v != END {
        ScanInTwo(ostr, table, next, tail);
        RunCons(ostr, table, Before(s, tail), v, Before(next, tail));
        var through := ScanThrough(ostr, table, next);
        if through.Reaches? {
          ConsAssoc(Got(v, next.arg), through.got, Run(ostr, table, Scan("", tail, through.arg)).0);
        }
      }
    }
  }

  /** Words that scan alike can replace each other behind any words that do not
      ask for one of them as an argument. */
  lemma Replaced(ostr: string, table: seq<LongOption>, pre: seq<string>, t1: seq<string>, t2: seq<string>,
      arg: Option<string>)
    requires forall a :: Run(ostr, table, Scan("", t1, a)) == Run(ostr, table, Scan("", t2, a))
    requires !ScanThrough(ostr, table, Scan("", pre, arg)).Asks?
    ensures var r1, r2 := Run(ostr, table, Scan("", pre + t1, arg)), Run(ostr, table, Scan("", pre + t2, arg));
      && r1.0 == r2.0
      && (ScanThrough(ostr, table, Scan("", pre, arg)).Reaches? ==> r1.1 == r2.1)
  {
    ScanInTwo(ostr, table, Scan("", pre, arg), t1);
    ScanInTwo(ostr, table, Scan("", pre, arg), t2);
  }

  /** A cluster anywhere on a command line may be written letter by letter. */
  lemma ClusterAnywhere(
      ostr: string, table: seq<LongOption>, pre: seq<string>, letters: string, post: seq<string>, arg: Option<string>)
    requires letters != "" && letters[0] != '-' && AllTakeNoArg(ostr, letters)
    requires !ScanThrough(ostr, table, Scan("", pre, arg)).Asks?
    ensures var r1 := Run(ostr, table, Scan("", pre + ([['-'] + letters] + post), arg));
      var r2 := Run(ostr, table, Scan("", pre + (OneByOne(letters) + post), arg));
      && r1.0 == r2.0
      && (ScanThrough(ostr, table, Scan("", pre, arg)).Reaches? ==> r1.1 == r2.1)
  {
    var t1, t2 := [['-'] + letters] + post, OneByOne(letters) + post;
    forall a ensures Run(ostr, table, Scan("", t1, a)) == Run(ostr, table, Scan("", t2, a)) {
      ClusterIsOneByOne(ostr, table, letters, post, a);
    }
    Replaced(ostr, table, pre, t1, t2, arg);
  }

  /** A required argument may be attached or separate anywhere. */
  lemma AttachedAnywhere(
      ostr: string, table: seq<LongOption>, pre: seq<string>, c: char, optArg: string, post: seq<string>,
      arg: Option<string>)
    requires c != '-' && KindOf(ostr, c) == RequiredArg && optArg != ""
    requires !ScanThrough(ostr, table, Scan("", pre, arg)).Asks?
    ensures var r1 := Run(ostr, table, Scan("", pre + ([['-', c] + optArg] + post), arg));
      var r2 := Run(ostr, table, Scan("", pre + ([['-', c], optArg] + post), arg));
      && r1.0 == r2.0
      && (ScanThrough(ostr, table, Scan("", pre, arg)).Reaches? ==> r1.1 == r2.1)
  {
    var t1, t2 := [['-', c] + optArg] + post, [['-', c], optArg] + post;
    forall a ensures Run(ostr, table, Scan("", t1, a)) == Run(ostr, table, Scan("", t2, a)) {
      AttachedIsSeparate(ostr, table, c, optArg, post, a);
    }
    Replaced(ostr, table, pre, t1, t2, arg);
  }

  /** The words that ask are left out for a reason: what follows them is not
      scanned but taken as an argument. */
  lemma AskingTakesTheNextWord(ostr: string, table: seq<LongOption>, s: Scan, w: string, tail: seq<string>)
    requires s.Valid() && s.rest != [] && AsksForMore(ostr, s)
    ensures Step(ostr, table, Before(s, [w] + tail)).0 != END
    ensures Step(ostr, table, Before(s, [w] + tail)).1 == Scan("", tail, Some(w))
  {
    var words := s.rest + ([w] + tail);
    assert words[0] == s.rest[0] && words[1] == w && words[2..] == tail;
  }

  /** The exact limit of writing a long option: with an empty name the word is
      "--", which ends the options. */
  lemma EmptyNameEndsOptions(ostr: string, table: seq<LongOption>, tail: seq<string>, arg: Option<string>)
    ensures Step(ostr, table, Scan("", ["--"] + tail, arg)) == (END, Scan("", tail, arg))
  {
    assert (["--"] + tail)[1..] == tail;
  }
}
