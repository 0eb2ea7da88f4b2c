/** The option scanner of dd_getopt.c with its global state. */
module Getopt {
  import opened CText
  import opened GetoptSpec

  /** place, dwoptind, dwoptopt, dwoptarg and dwoptreset over one argument
      vector; argv holds the nargc words. */
  class Scanner {
    const argv: seq<string>
    const ostr: string
    const longopts: seq<LongOption>
    var place: string
    var optind: nat
    var optopt: char
    var optarg: Option<string>
    var optreset: bool

    /** The reachable states: the index never passes the end of argv, and a
        place that is not used up lies in the word at the index. */
    ghost predicate Valid()
      reads this
    {
      optind <= |argv| && (place != "" ==> optind < |argv|)
    }

    ghost function View(): (s: Scan)
      reads this
      requires Valid()
      ensures s.Valid()
    {
      Scan(place, argv[optind..], optarg)
    }

    constructor (argv: seq<string>, ostr: string, longopts: seq<LongOption>)
      requires argv != []
      ensures Valid() && View() == Scan("", argv[1..], None) && !optreset
      ensures this.argv == argv && this.ostr == ostr && this.longopts == longopts
    {
      this.argv, this.ostr, this.longopts := argv, ostr, longopts;
      place, optind, optopt, optarg, optreset := "", 1, NUL, None, false;
    }

    /** strchr(ostr, c) and the colons after it. */
    method FindLetter(c: char) returns (kind: ArgKind)
      ensures kind == KindOf(ostr, c)
    {
      if c == ':' {
        return Unlisted;
      }
      var oli := 0;
      while oli < |ostr| && ostr[oli] != c
        invariant oli <= |ostr| && KindFrom(ostr, 0, c) == KindFrom(ostr, oli, c)
      {
        oli := oli + 1;
      }
      if oli == |ostr| {
        return Unlisted;
      }
      if At(ostr, oli + 1) != ':' {
        return NoArg;
      }
      kind := if At(ostr, oli + 2) == ':' then OptionalArg else RequiredArg;
    }

    /** dwgetopt. */
    method Dwgetopt() returns (c: int)
      requires Valid()
      modifies this
      ensures Valid() && !optreset
      ensures (c, View()) == ShortStep(ostr, if old(optreset) then old(View()).(place := "") else old(View()))
    {
      if optreset || place == "" {
        optreset := false;
        place := "";
        if optind >= |argv| || argv[optind] == "" || argv[optind][0] != '-' {
          return END;
        }
        place := argv[optind][1..];
        if place == "-" {
          // "--" ends the options
          optind := optind + 1;
          place := "";
          return END;
        }
        if place == "" {
          // a solitary '-'
          if '-' !in ostr {
            return END;
          }
          optopt := '-';
        } else {
          optopt := place[0];
          place := place[1..];
        }
      } else {
        optopt := place[0];
        place := place[1..];
      }
      c := Classify();
    }

    /** The part of dwgetopt that acts on the letter dwoptopt. */
    method Classify() returns (c: int)
      requires optind < |argv|
      modifies this
      ensures Valid() && optreset == old(optreset)
      ensures (c, View()) == Letter(ostr, old(optopt), old(place), Scan(old(place), argv[old(optind)..], old(optarg)))
    {
      var kind := FindLetter(optopt);
      if kind.Unlisted? {
        if place == "" {
          optind := optind + 1;
        }
        return BADCH;
      }
      if kind.NoArg? {
        optarg := None;
        if place == "" {
          optind := optind + 1;
        }
        return optopt as int;
      }
      if place != "" {
        optarg := Some(place);
      } else if kind.RequiredArg? {
        optind := optind + 1;
        if |argv| > optind {
          optarg := Some(argv[optind]);
        } else {
          return if At(ostr, 0) == ':' then BADARG else BADCH;
        }
      } else {
        optarg := None;
      }
      place := "";
      optind := optind + 1;
      c := optopt as int;
    }

    /** dwoptnamematches; dwoptarg is set on a match. */
    method DwoptNameMatches(opt: LongOption, iplace: string) returns (m: Matched)
      ensures m == NameMatches(opt, iplace)
    {
      var eq := 0;
      while eq < |iplace| && iplace[eq] != '='
        invariant eq <= |iplace| && EqualsAt(iplace, 0) == EqualsAt(iplace, eq)
      {
        eq := eq + 1;
      }
      var namelen := 0;
      if eq < |iplace| {
        namelen := eq;
        if namelen != |opt.name| {
          return NoMatch;
        }
      }
      if namelen > 0 {
        if iplace[..namelen] != opt.name {
          return NoMatch;
        }
        if opt.hasArg == 0 {
          return ArgError;
        }
        return Match(if eq + 1 < |iplace| then Some(iplace[eq + 1..]) else None);
      }
      if iplace != opt.name {
        return NoMatch;
      }
      m := if opt.hasArg == 1 then ArgError else Match(None);
    }

    /** dwgetopt_long; longindex is where a long option was found. */
    method DwgetoptLong() returns (c: int, longindex: Option<nat>)
      requires Valid()
      modifies this
      ensures Valid() && optreset == old(optreset)
      ensures (c, View()) ==
        if optreset then (END, old(View()).(place := "")) else Step(ostr, longopts, old(View()))
      ensures longindex == if !optreset && IsLongWord(old(View())) then FirstMatch(longopts, old(View()).rest[0][2..])
                           else None
    {
      longindex := None;
      if optreset {
        // a reset is not supported here
        place := "";
        return END, None;
      }
      if place != "" {
        c := Dwgetopt();
        return;
      }
      if optind >= |argv| || argv[optind] == "" || argv[optind][0] != '-' {
        return END, None;
      }
      var lplace := argv[optind][1..];
      if lplace == "" || lplace[0] != '-' {
        c := Dwgetopt();
        return;
      }
      var name := lplace[1..];
      assert name == argv[optind][2..];
      if name == "" {
        optind := optind + 1;
        return END, None;
      }
      c, longindex := SearchLong(name);
    }

    /** The search of dwgetopt_long through its table. */
    method SearchLong(name: string) returns (c: int, longindex: Option<nat>)
      requires Valid() && place == "" && optind < |argv|
      modifies this`optind, this`optarg
      ensures Valid() && (c, View()) == LongFrom(longopts, 0, name, old(View()))
      ensures longindex == FirstMatch(longopts, name)
    {
      ghost var s := View();
      var loNum := 0;
      while loNum < |longopts|
        invariant loNum <= |longopts| && optind == old(optind) && optarg == old(optarg)
        invariant LongFrom(longopts, 0, name, s) == LongFrom(longopts, loNum, name, s)
        invariant MatchFrom(longopts, 0, name) == MatchFrom(longopts, loNum, name)
      {
        var m := DwoptNameMatches(longopts[loNum], name);
        if m.ArgError? {
          optarg := None;
          optind := optind + 1;
          return BADCH, None;
        }
        if m.Match? {
          optarg := m.arg;
          optind := optind + 1;
          return longopts[loNum].val, Some(loNum);
        }
        loNum := loNum + 1;
      }
      optind := optind + 1;
      return BADCH, None;
    }
  }

  ghost function Prepend(got: seq<Got>, r: (seq<Got>, Scan)): (seq<Got>, Scan) {
    (got + r.0, r.1)
  }

  lemma PrependLast(got: seq<Got>, last: Scan)
    ensures Prepend(got, ([], last)) == (got, last)
  {
    assert got + [] == got;
  }

  lemma PrependStep(got: seq<Got>, g: Got, r: (seq<Got>, Scan))
    ensures Prepend(got, ([g] + r.0, r.1)) == Prepend(got + [g], r)
  {
    assert got + ([g] + r.0) == (got + [g]) + r.0;
  }

  /** A caller's option loop: it ends, and collects what Run says. */
  method ScanAll(s: Scanner) returns (got: seq<Got>)
    requires s.Valid() && !s.optreset
    modifies s
    ensures s.Valid() && (got, s.View()) == Run(s.ostr, s.longopts, old(s.View()))
  {
    got := [];
    ghost var whole := Run(s.ostr, s.longopts, s.View());
    assert [] + whole.0 == whole.0;
    while true
      invariant s.Valid() && !s.optreset
      invariant whole == Prepend(got, Run(s.ostr, s.longopts, s.View()))
      decreases Unscanned(s.View())
    {
      ghost var before := s.View();
      StepProgress(s.ostr, s.longopts, before);
      var c, _ := s.DwgetoptLong();
      if c == END {
        PrependLast(got, s.View());
        return;
      }
      RunCons(s.ostr, s.longopts, before, c, s.View());
      PrependStep(got, Got(c, s.optarg), Run(s.ostr, s.longopts, s.View()));
      got := got + [Got(c, s.optarg)];
    }
  }
}
