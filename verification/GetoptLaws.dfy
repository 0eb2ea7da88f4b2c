/** What the option scanner makes of an option string, and of command lines
    that do not keep to it. */
module GetoptLaws {
  import opened CText
  import opened GetoptSpec

  // ----- the option string

  lemma {:induction false} KindFromAt(ostr: string, i: nat, j: nat, c: char)
    requires i <= j <= |ostr| && (j < |ostr| ==> ostr[j] == c) && forall k :: i <= k < j ==> ostr[k] != c
    ensures KindFrom(ostr, i, c) == if j == |ostr| then Unlisted else KindFrom(ostr, j, c)
    decreases j - i
  {
    if i == j {
    } else {
      KindFromAt(ostr, i + 1, j, c);
    }
  }

  /** A letter is listed where it stands first; one colon behind it asks for an
      argument, two leave the argument to choice.  A colon is no letter. */
  lemma KindIs(ostr: string, c: char, j: nat)
    requires j <= |ostr| && (j < |ostr| ==> ostr[j] == c) && forall k :: 0 <= k < j ==> ostr[k] != c
    ensures KindOf(ostr, c) == Unlisted <==> j == |ostr| || c == ':'
    ensures j < |ostr| && c != ':' ==>
      && (KindOf(ostr, c) == NoArg <==> At(ostr, j + 1) != ':')
      && (KindOf(ostr, c) == RequiredArg <==> At(ostr, j + 1) == ':' && At(ostr, j + 2) != ':')
      && (KindOf(ostr, c) == OptionalArg <==> At(ostr, j + 1) == ':' && At(ostr, j + 2) == ':')
  {
    KindFromAt(ostr, 0, j, c);
  }

  // ----- letters that are refused

  /** A letter that is not listed is returned as '?', and the scan goes on with
      the next one in the word. */
  lemma UnlistedIsRefused(
      ostr: string, table: seq<LongOption>, c: char, more: string, tail: seq<string>, arg: Option<string>)
    requires c != '-' && KindOf(ostr, c) == Unlisted
    ensures var words := [['-', c] + more] + tail;
      Step(ostr, table, Scan("", words, arg)) == ('?' as int, Scan(more, if more == "" then tail else words, arg))
  {
    var words := [['-', c] + more] + tail;
    assert words[0][2..] == more && words[1..] == tail;
  }

  /** A required argument that is missing: ':' when the option string begins
      with a colon, else '?'. */
  lemma MissingArgument(ostr: string, table: seq<LongOption>, c: char, arg: Option<string>)
    requires KindOf(ostr, c) == RequiredArg
    ensures Step(ostr, table, Scan("", [Short(c)], arg))
      == (if ostr != "" && ostr[0] == ':' then ':' as int else '?' as int, Scan("", [], arg))
  {
    ListedOccurs(ostr, 0, c);
    var words := [Short(c)];
    assert c != '-' ==> words[0][2..] == "";
    assert words[1..] == [];
  }

  /** A lone '-' that is not listed, a word without '-', and the end of the words
      end the scan where they stand; "--" is stepped over. */
  lemma ScanEnds(ostr: string, table: seq<LongOption>, words: seq<string>, arg: Option<string>)
    requires words == [] || words[0] == "" || words[0][0] != '-' || (words[0] == "-" && '-' !in ostr)
      || words[0] == "--"
    ensures Step(ostr, table, Scan("", words, arg))
      == (-1, Scan("", if words != [] && words[0] == "--" then words[1..] else words, arg))
  {
  }

  /** dwgetopt by itself knows no long options: "--" ends the options, and any
      other word that begins with it is the letter '-' and more letters. */
  lemma ShortDashes(ostr: string, more: string, tail: seq<string>, arg: Option<string>)
    ensures ShortStep(ostr, Scan("", ["--"] + tail, arg)) == (-1, Scan("", tail, arg))
    ensures more != "" && KindOf(ostr, '-') == NoArg ==>
      ShortStep(ostr, Scan("", ["--" + more] + tail, arg)) == ('-' as int, Scan(more, ["--" + more] + tail, None))
    ensures more != "" && KindOf(ostr, '-') == Unlisted ==>
      ShortStep(ostr, Scan("", ["--" + more] + tail, arg)) == ('?' as int, Scan(more, ["--" + more] + tail, arg))
  {
    assert (["--"] + tail)[1..] == tail;
    var words := ["--" + more] + tail;
    assert words[0][2..] == more;
  }

  // ----- long options that are refused

  lemma {:induction false} LongFirst(table: seq<LongOption>, i: nat, k: nat, text: string, s: Scan)
    requires i <= k <= |table| && s.rest != [] && s.place == ""
    requires forall j :: i <= j < k ==> NameMatches(table[j], text).NoMatch?
    ensures LongFrom(table, i, text, s) == LongFrom(table, k, text, s)
    decreases k - i
  {
    if i == k {
    } else {
      LongFirst(table, i + 1, k, text, s);
    }
  }

  /** A name with an argument behind '=', or without. */
  function LongText(name: string, arg: Option<string>): string {
    name + if arg.Some? then "=" + arg.value else ""
  }

  lemma LongTextMatches(opt: LongOption, name: string, arg: Option<string>)
    requires '=' !in name && name != ""
    ensures NameMatches(opt, LongText(name, arg)).NoMatch? <==> opt.name != name
    ensures opt.name == name ==>
      NameMatches(opt, LongText(name, arg)) ==
        if opt.hasArg == 0 && arg.Some? then ArgError
        else if opt.hasArg == 1 && arg.None? then ArgError
        else Match(if arg == Some("") then None else arg)
  {
    var text := LongText(name, arg);
    assert text[..|name|] == name;
    assert forall k :: 0 <= k < |name| ==> text[k] == name[k];
    EqualsAtOf(text, 0, |name|);
    if arg.Some? {
      assert text[|name| + 1..] == arg.value;
    } else {
      assert text == name;
    }
  }

  lemma {:induction false} MatchFirst(table: seq<LongOption>, i: nat, k: nat, text: string)
    requires i <= k <= |table|
    requires forall j :: i <= j < k ==> NameMatches(table[j], text).NoMatch?
    ensures MatchFrom(table, i, text) == MatchFrom(table, k, text)
    decreases k - i
  {
    if i == k {
    } else {
      MatchFirst(table, i + 1, k, text);
    }
  }

  /** A word without a name before '=' matches no entry, not even one whose name
      is empty. */
  lemma NoNameMatchesNothing(opt: LongOption, text: string)
    ensures NameMatches(opt, "=" + text).NoMatch?
  {
    assert EqualsAt("=" + text, 0) == 0;
  }

  /** A long option is the first entry with its name.  Without one, and with an
      argument where none is taken or none where one is required, '?' is
      returned; "--name=" passes no argument. */
  lemma LongIs(
      ostr: string, table: seq<LongOption>, k: nat, name: string, text: Option<string>, tail: seq<string>,
      arg: Option<string>)
    requires '=' !in name && name != "" && k <= |table| && (k < |table| ==> table[k].name == name)
    requires forall j :: 0 <= j < k ==> table[j].name != name
    ensures Step(ostr, table, Scan("", ["--" + LongText(name, text)] + tail, arg)) ==
      if k == |table| then ('?' as int, Scan("", tail, arg))
      else if table[k].hasArg == 0 && text.Some? then ('?' as int, Scan("", tail, None))
      else if table[k].hasArg == 1 && text.None? then ('?' as int, Scan("", tail, None))
      else (table[k].val, Scan("", tail, if text == Some("") then None else text))
    ensures FirstMatch(table, LongText(name, text)) ==
      if k == |table| || (table[k].hasArg == 0 && text.Some?) || (table[k].hasArg == 1 && text.None?) then None
      else Some(k)
  {
    var words := ["--" + LongText(name, text)] + tail;
    assert words[0][2..] == LongText(name, text) && words[1..] == tail;
    forall j | 0 <= j < k ensures NameMatches(table[j], LongText(name, text)).NoMatch? {
      LongTextMatches(table[j], name, text);
    }
    LongFirst(table, 0, k, LongText(name, text), Scan("", words, arg));
    MatchFirst(table, 0, k, LongText(name, text));
    if k < |table| {
      LongTextMatches(table[k], name, text);
    }
  }
}
