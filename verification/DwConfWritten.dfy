/** An abi written line by line is read back: its registers, its numbers and its
    options are what the lines say, told without the reader's own functions. */
module DwConfWritten {
  import opened CText
  import opened DwConfText
  import opened DwConfSpec
  import opened ReadOutcome
  import opened DwConfLines

  datatype Item =
    | RegItem(name: string, n: nat)
    | NumberItem(field: Field, v: nat)
    | OptionItem(word: string)

  /** The line that says it, without any word too many. */
  function LineOfItem(item: Item): Line {
    match item
    case RegItem(name, n) => Reg(name, Num(n), false)
    case NumberItem(field, v) => SetNumber(field, Num(v), false)
    case OptionItem(word) => OptionLine(word, false)
  }

  /** What the program accepts; anything greater makes it give up. */
  predicate Fits(item: Item) {
    match item
    case RegItem(name, n) => name != "" && n <= 10000000
    case NumberItem(FrameInterface, v) => v == 2 || v == 3
    case NumberItem(RegTableSize, v) => v <= 100000000
    case NumberItem(AddressSize, v) => v <= 16
    case NumberItem(_, v) => v <= 10000000
    case OptionItem(_) => true
  }

  // ----- what a list of items says

  predicate Sets(items: seq<Item>, field: Field) {
    exists k :: 0 <= k < |items| && items[k].NumberItem? && items[k].field == field
  }

  predicate Asks(items: seq<Item>, word: string) {
    exists k :: 0 <= k < |items| && items[k] == OptionItem(word)
  }

  /** The number given to a field, or its default. */
  function NumberFor(items: seq<Item>, field: Field, default: nat): nat {
    if items == [] then default
    else
      var item := items[|items| - 1];
      if item.NumberItem? && item.field == field then item.v
      else NumberFor(items[..|items| - 1], field, default)
  }

  /** The name last given to a register. */
  function NameFor(items: seq<Item>, n: nat): Option<string> {
    if items == [] then None
    else
      var item := items[|items| - 1];
      if item.RegItem? && item.n == n then Some(item.name) else NameFor(items[..|items| - 1], n)
  }

  function RegCount(items: seq<Item>): nat {
    if items == [] then 0 else RegCount(items[..|items| - 1]) + if items[|items| - 1].RegItem? then 1 else 0
  }

  /** Each number is given once. */
  predicate NumbersOnce(items: seq<Item>) {
    forall i, j :: 0 <= i < j < |items| && items[i].NumberItem? && items[j].NumberItem? ==>
      items[i].field != items[j].field
  }

  /** The built-in names, or a table that reaches past every register named and
      holds the last name of each, and no other name. */
  predicate HoldsNames(regs: RegTable, items: seq<Item>) {
    if RegCount(items) == 0 then regs == Generic
    else
      && regs.Named?
      && (forall n :: 0 <= n < |regs.names| ==> regs.names[n] == NameFor(items, n))
      && (forall k :: 0 <= k < |items| && items[k].RegItem? ==> items[k].n < |regs.names|)
  }

  /** The configuration that the items make of the defaults. */
  predicate HoldsItems(conf: Conf, items: seq<Item>) {
    && conf.interfaceNumber == NumberFor(items, FrameInterface, 3)
    && conf.tableEntryCount == NumberFor(items, RegTableSize, 150)
    && conf.initialRuleValue == NumberFor(items, InitialRegValue, 12288)
    && conf.sameVal == NumberFor(items, SameValReg, 12289)
    && conf.undefinedVal == NumberFor(items, UndefinedValReg, 12288)
    && conf.cfaReg == NumberFor(items, CfaReg, 12290)
    && conf.addressSize == NumberFor(items, AddressSize, 0)
    && HoldsNames(conf.regs, items)
  }

  /** Where the reader stands behind the items, no error counted. */
  ghost predicate Reached(w: Words, st: State, items: seq<Item>) {
    && st.errs == 0 && st.stop == Running && st.beginSeen && st.regcount == RegCount(items)
    && (forall field :: field in st.seen <==> Sets(items, field))
    && (st.joined <==> Asks(items, w.joinedName))
    && HoldsItems(st.conf, items)
  }

  lemma Snoc(items: seq<Item>, item: Item)
    ensures (items + [item])[..|items + [item]| - 1] == items
    ensures forall field ::
      Sets(items + [item], field) <==> Sets(items, field) || (item.NumberItem? && item.field == field)
    ensures forall word :: Asks(items + [item], word) <==> Asks(items, word) || item == OptionItem(word)
  {
    var more := items + [item];
    assert more[|items|] == item && forall k :: 0 <= k < |items| ==> more[k] == items[k];
    forall field ensures Sets(more, field) <==> Sets(items, field) || (item.NumberItem? && item.field == field) {
      if k :| 0 <= k < |items| && items[k].NumberItem? && items[k].field == field {
        assert more[k] == items[k];
      }
    }
    forall word ensures Asks(more, word) <==> Asks(items, word) || item == OptionItem(word) {
      if k :| 0 <= k < |items| && items[k] == OptionItem(word) {
        assert more[k] == items[k];
      }
    }
  }

  lemma {:induction false} NoName(items: seq<Item>, n: nat)
    requires forall k :: 0 <= k < |items| && items[k].RegItem? ==> items[k].n < n
    ensures NameFor(items, n).None?
    decreases |items|
  {
    if items == [] {
    } else {
      NoName(items[..|items| - 1], n);
    }
  }

  lemma {:induction false} NoNames(items: seq<Item>, n: nat)
    requires RegCount(items) == 0
    ensures NameFor(items, n).None? && forall k :: 0 <= k < |items| ==> !items[k].RegItem?
    decreases |items|
  {
    if items == [] {
    } else {
      NoNames(items[..|items| - 1], n);
    }
  }

  lemma NameStep(regs: RegTable, items: seq<Item>, name: string, m: nat)
    requires HoldsNames(regs, items)
    ensures HoldsNames(AddName(regs, name, m), items + [RegItem(name, m)])
  {
    var more := items + [RegItem(name, m)];
    var regs' := AddName(regs, name, m);
    Snoc(items, RegItem(name, m));
    forall n | 0 <= n < |regs'.names| ensures regs'.names[n] == NameFor(more, n) {
      if n != m {
        if RegCount(items) == 0 {
          NoNames(items, n);
        } else if n >= |regs.names| {
          NoName(items, n);
        }
      }
    }
    if RegCount(items) == 0 {
      NoNames(items, 0);
    }
  }

  lemma OtherStep(regs: RegTable, items: seq<Item>, item: Item)
    requires HoldsNames(regs, items) && !item.RegItem?
    ensures HoldsNames(regs, items + [item])
  {
    Snoc(items, item);
  }

  lemma NumberStep(conf: Conf, items: seq<Item>, item: Item)
    requires HoldsItems(conf, items) && item.NumberItem?
    ensures HoldsItems(conf.Put(item.field, item.v), items + [item])
  {
    Snoc(items, item);
    OtherStep(conf.regs, items, item);
  }

  lemma RegStep(conf: Conf, items: seq<Item>, item: Item)
    requires HoldsItems(conf, items) && item.RegItem?
    ensures HoldsItems(conf.(regs := AddName(conf.regs, item.name, item.n)), items + [item])
  {
    Snoc(items, item);
    NameStep(conf.regs, items, item.name, item.n);
  }

  /** One line of an abi. */
  lemma ItemStep(w: Words, st: State, items: seq<Item>, item: Item)
    requires Reached(w, st, items) && Fits(item) && (item.NumberItem? ==> !Sets(items, item.field))
    ensures Reached(w, Perform(w, st, LineOfItem(item)), items + [item])
  {
    Snoc(items, item);
    match item
    case RegItem(_, _) => RegStep(st.conf, items, item);
    case NumberItem(_, _) => NumberStep(st.conf, items, item);
    case OptionItem(_) => OtherStep(st.conf.regs, items, item);
  }

  // ----- a file that holds an abi

  /** Line k of the file is taken whole by parse_abi, and says this. */
  predicate LineSays(w: Words, f: File, k: nat, line: Line) {
    k < |f.lines| && IsLine(f.lines[k]) && |f.lines[k]| <= PARSE_LIMIT && Says(w, f.lines[k], line)
  }

  /** The file begins with the abi x: its beginabi: line, one line for each
      item, and its endabi: line. */
  predicate HoldsAbi(w: Words, f: File, x: string, items: seq<Item>)
    requires f.Valid()
  {
    && LineSays(w, f, 0, BeginAbi(x, false)) && |f.lines[0]| <= FIND_LIMIT && Shows(f.lines[0], w.beginName, x)
    && w.beginName != w.optionName
    && (forall k :: 0 <= k < |items| ==> LineSays(w, f, k + 1, LineOfItem(items[k])))
    && LineSays(w, f, |items| + 1, EndAbi(x, false))
  }

  lemma AbiIsFound(w: Words, f: File, x: string, items: seq<Item>)
    requires f.Valid() && HoldsAbi(w, f, x, items)
    ensures FindAbi(w, f.text, 0, Some(x)) == FoundAt(0, false)
  {
    IsSeenAt(f, 0, 0, f.o[1], w.beginName, x);
  }

  /** One more item of the walk. */
  lemma ItemTurn(
      w: Words, f: File, k: nat, i: nat, end: nat, x: string, item: Item, st: State)
    requires f.Valid() && k < |f.lines| && i == f.o[k] && end == f.o[k + 1] && LineSays(w, f, k, LineOfItem(item))
    requires !st.Stopped()
    ensures i < |f.text| && end <= |f.text|
    ensures Walk(w, f.text, i, x, 0, true, 0, st)
      == Walk(w, f.text, end, x, 0, true, 0, Perform(w, st, LineOfItem(item)))
  {
    ParsesAt(w, f, k, i, end, LineOfItem(item));
    WalkTurn(w, f.text, i, end, LineOfItem(item), x, 0, true, 0, st);
  }

  lemma EndTurn(w: Words, f: File, k: nat, i: nat, x: string, st: State)
    requires f.Valid() && k < |f.lines| && i == f.o[k] && LineSays(w, f, k, EndAbi(x, false))
    requires !st.Stopped()
    ensures i < |f.text|
    ensures Walk(w, f.text, i, x, 0, true, 0, st)
      == st.(errs := st.errs + if st.regcount > st.conf.tableEntryCount then 1 else 0)
  {
    ParsesAt(w, f, k, i, f.o[k + 1], EndAbi(x, false));
    WalkTurn(w, f.text, i, f.o[k + 1], EndAbi(x, false), x, 0, true, 0, st);
  }

  /** The walk over the items from item k on. */
  lemma {:induction false} ItemsAreWalked(
      w: Words, f: File, x: string, items: seq<Item>, k: nat, i: nat, st: State)
    requires f.Valid() && HoldsAbi(w, f, x, items) && k <= |items| && i == f.o[k + 1]
    requires (forall j :: 0 <= j < |items| ==> Fits(items[j])) && NumbersOnce(items)
    requires Reached(w, st, items[..k])
    ensures i < |f.text|
    ensures var r := Walk(w, f.text, i, x, 0, true, 0, st);
      && r.errs == (if RegCount(items) > NumberFor(items, RegTableSize, 150) then 1 else 0)
      && Reached(w, r.(errs := 0), items)
    decreases |items| - k
  {
    if k == |items| {
      assert items[..k] == items;
      EndTurn(w, f, k + 1, i, x, st);
    } else {
      var end := f.o[k + 2];
      var st' := Perform(w, st, LineOfItem(items[k]));
      ItemIsReached(w, items, k, st, st');
      ItemTurn(w, f, k + 1, i, end, x, items[k], st);
      ItemsAreWalked(w, f, x, items, k + 1, end, st');
    }
  }

  lemma ItemIsReached(w: Words, items: seq<Item>, k: nat, st: State, st': State)
    requires k < |items| && NumbersOnce(items) && Fits(items[k]) && Reached(w, st, items[..k])
    requires st' == Perform(w, st, LineOfItem(items[k]))
    ensures Reached(w, st', items[..k + 1])
  {
    assert items[..k + 1] == items[..k] + [items[k]];
    NotYetSet(items, k);
    ItemStep(w, st, items[..k], items[k]);
  }

  lemma NotYetSet(items: seq<Item>, k: nat)
    requires NumbersOnce(items) && k < |items|
    ensures items[k].NumberItem? ==> !Sets(items[..k], items[k].field)
  {
    assert forall j :: 0 <= j < k ==> items[..k][j] == items[j];
  }

  /** Such a file is read with success exactly when it names no more registers
      than the table is to have, and every register, number and option is what
      its lines say. */
  lemma WrittenAbiIsRead(w: Words, f: File, x: string, items: seq<Item>)
    requires f.Valid() && HoldsAbi(w, f, x, items)
    requires (forall j :: 0 <= j < |items| ==> Fits(items[j])) && NumbersOnce(items)
    ensures var r := Read(w, f.text, Some(x), 0, START);
      && (GivesAbi(r) <==> RegCount(items) <= NumberFor(items, RegTableSize, 150))
      && HoldsItems(r.state.conf, items) && (r.state.joined <==> Asks(items, w.joinedName))
  {
    AbiIsFound(w, f, x, items);
    ParsesAt(w, f, 0, 0, f.o[1], BeginAbi(x, false));
    var st0 := Bump(Fresh(w, f.text, Some(x), START), 0);
    var st1 := Open(st0, x, x, false);
    NothingYet(w, f, x, items);
    assert items[..0] == [];
    ItemsAreWalked(w, f, x, items, 0, f.o[1], st1);
    WalkTurn(w, f.text, 0, f.o[1], BeginAbi(x, false), x, 0, false, 0, st0);
    ReadStarts(w, f.text, x, START);
  }

  lemma NothingYet(w: Words, f: File, x: string, items: seq<Item>)
    requires f.Valid() && HoldsAbi(w, f, x, items)
    ensures Reached(w, Open(Bump(Fresh(w, f.text, Some(x), START), 0), x, x, false), [])
  {
    IsSeenAt(f, 0, 0, f.o[1], w.beginName, x);
  }

  /** With a single reg: line, in particular, the register it names has that
      name, and no other has one. */
  lemma OneRegisterIsRead(w: Words, f: File, x: string, name: string, n: nat)
    requires f.Valid() && HoldsAbi(w, f, x, [RegItem(name, n)]) && name != "" && n <= 10000000
    ensures var r := Read(w, f.text, Some(x), 0, START); var regs := r.state.conf.regs;
      && GivesAbi(r) && regs.Named? && n < |regs.names| && regs.names[n] == Some(name)
      && forall m :: 0 <= m < |regs.names| && m != n ==> regs.names[m] == None
  {
    var items := [RegItem(name, n)];
    WrittenAbiIsRead(w, f, x, items);
    assert items[..0] == [] && items[0].RegItem?;
    assert RegCount(items) == 1 && NumberFor(items, RegTableSize, 150) == NumberFor([], RegTableSize, 150) == 150;
    var names := Read(w, f.text, Some(x), 0, START).state.conf.regs.names;
    forall m | 0 <= m < |names| ensures names[m] == if m == n then Some(name) else None {
      assert NameFor(items, m) == if m == n then Some(name) else NameFor([], m);
    }
  }

  // ----- lines at fault

  /** An operand that makes the program give up. */
  predicate TooGreat(line: Line) {
    match line
    case Reg(name, Num(n), _) => name != "" && n > 10000000
    case SetNumber(FrameInterface, Num(v), _) => v > 0xffff_ffff_ffff_ffff
    case SetNumber(RegTableSize, Num(v), _) => v > 100000000
    case SetNumber(AddressSize, Num(v), _) => v > 16
    case SetNumber(_, Num(v), _) => v > 10000000
    case _ => false
  }

  /** Nothing is missing, nothing too many, and what stands for a number is one. */
  predicate Right(line: Line) {
    match line
    case Reg(name, num, extra) => name != "" && num.Num? && !extra
    case SetNumber(FrameInterface, num, extra) => (num == Num(2) || num == Num(3)) && !extra
    case SetNumber(_, num, extra) => num.Num? && !extra
    case OptionLine(_, extra) => !extra
    case _ => false
  }

  /** The file begins with the beginabi: line of x. */
  predicate HoldsBegin(w: Words, f: File, x: string, extra: bool)
    requires f.Valid()
  {
    && LineSays(w, f, 0, BeginAbi(x, extra)) && |f.lines[0]| <= FIND_LIMIT && Shows(f.lines[0], w.beginName, x)
    && w.beginName != w.optionName
  }

  lemma BeginStarts(w: Words, f: File, x: string, extra: bool, i: nat, st: State, r: State)
    requires f.Valid() && HoldsBegin(w, f, x, extra) && i == f.o[1]
    requires st == START.(errs := if extra then 1 else 0, beginSeen := true)
    requires i <= |f.text| && Walk(w, f.text, i, x, 0, true, 0, st) == r
    ensures Read(w, f.text, Some(x), 0, START) == Judged(r)
  {
    BeginIsRead(w, f, x, extra, i);
    WalkTurn(w, f.text, 0, i, BeginAbi(x, extra), x, 0, false, 0, START);
    ReadStarts(w, f.text, x, START);
  }

  lemma BeginIsRead(w: Words, f: File, x: string, extra: bool, i: nat)
    requires f.Valid() && HoldsBegin(w, f, x, extra) && i == f.o[1]
    ensures 0 < |f.text| && Parses(w, f.text, 0, i, BeginAbi(x, extra))
    ensures FindAbi(w, f.text, 0, Some(x)) == FoundAt(0, false) && !FindSetsOption(w, f.text, 0, Some(x))
  {
    IsSeenAt(f, 0, 0, i, w.beginName, x);
    ParsesAt(w, f, 0, 0, i, BeginAbi(x, extra));
  }

  /** What one line does to a reader that has counted no error. */
  lemma LineIsJudged(w: Words, st: State, line: Line)
    requires line.Reg? || line.SetNumber? || line.OptionLine?
    requires st == START.(beginSeen := true)
    ensures var st' := Perform(w, st, line);
      && (st'.stop == Exited <==> TooGreat(line)) && st'.stop != Stale
      && (!TooGreat(line) ==> (st'.errs == 0 <==> Right(line)) && st'.regcount <= st'.conf.tableEntryCount)
      && (!TooGreat(line) ==> st'.errs == Errors(line))
  {
  }

  /** How many errors are counted: two for a word that is no number, which is
      complained of twice, and one for any other fault. */
  function Errors(line: Line): nat {
    match line
    case Reg(name, Bad, _) => if name == "" then 1 else 2
    case SetNumber(_, Bad, _) => 2
    case _ => if Right(line) then 0 else 1
  }

  lemma LineTurn(w: Words, f: File, k: nat, i: nat, end: nat, x: string, line: Line, st: State, st': State)
    requires f.Valid() && k < |f.lines| && i == f.o[k] && end == f.o[k + 1] && LineSays(w, f, k, line)
    requires (line.Reg? || line.SetNumber? || line.OptionLine?) && !st.Stopped() && st' == Perform(w, st, line)
    ensures i < |f.text| && end <= |f.text|
    ensures Walk(w, f.text, i, x, 0, true, 0, st) == Walk(w, f.text, end, x, 0, true, 0, st')
  {
    ParsesAt(w, f, k, i, end, line);
    WalkTurn(w, f.text, i, end, line, x, 0, true, 0, st);
  }

  /** One line at fault makes the read fail, and an operand beyond its limit ends
      the program. */
  lemma OneLineIsJudged(w: Words, f: File, x: string, line: Line)
    requires f.Valid() && (line.Reg? || line.SetNumber? || line.OptionLine?)
    requires HoldsBegin(w, f, x, false) && LineSays(w, f, 1, line) && LineSays(w, f, 2, EndAbi(x, false))
    ensures var r := Read(w, f.text, Some(x), 0, START);
      && (r.state.stop == Exited <==> TooGreat(line))
      && (!TooGreat(line) ==> (r.outcome == ReadAbi <==> Right(line)) && (r.outcome == ReadError <==> !Right(line)))
      && (!TooGreat(line) ==> r.state.errs == Errors(line))
  {
    var st := START.(beginSeen := true);
    var st' := Perform(w, st, line);
    OneLineIsWalked(w, f, x, line, f.o[1], f.o[2], st, st');
    LineIsJudged(w, st, line);
    BeginStarts(w, f, x, false, f.o[1], st, st');
  }

  lemma OneLineIsWalked(
      w: Words, f: File, x: string, line: Line, i: nat, j: nat, st: State, st': State)
    requires f.Valid() && (line.Reg? || line.SetNumber? || line.OptionLine?)
    requires LineSays(w, f, 1, line) && LineSays(w, f, 2, EndAbi(x, false)) && i == f.o[1] && j == f.o[2]
    requires st == START.(beginSeen := true) && st' == Perform(w, st, line)
    ensures i < |f.text| && Walk(w, f.text, i, x, 0, true, 0, st) == st'
  {
    LineIsJudged(w, st, line);
    LineTurn(w, f, 1, i, j, x, line, st, st');
    if !st'.Stopped() {
      EndTurn(w, f, 2, j, x, st');
    }
  }

  /** A number that is given twice is an error. */
  lemma NumberTwice(w: Words, f: File, x: string, field: Field, u: nat, v: nat)
    requires f.Valid() && Fits(NumberItem(field, u)) && Fits(NumberItem(field, v)) && HoldsBegin(w, f, x, false)
    requires LineSays(w, f, 1, SetNumber(field, Num(u), false)) && LineSays(w, f, 2, SetNumber(field, Num(v), false))
    requires LineSays(w, f, 3, EndAbi(x, false))
    ensures Read(w, f.text, Some(x), 0, START).outcome == ReadError
  {
    var one, two := SetNumber(field, Num(u), false), SetNumber(field, Num(v), false);
    var st := START.(beginSeen := true);
    var st1 := Perform(w, st, one);
    var st2 := Perform(w, st1, two);
    SecondNumber(w, st, field, u, v);
    TwoLinesAreWalked(w, f, x, one, two, f.o[1], f.o[2], f.o[3], st, st1, st2);
    BeginStarts(w, f, x, false, f.o[1], st, st2);
  }

  lemma TwoLinesAreWalked(
      w: Words, f: File, x: string, one: Line, two: Line, i: nat, j: nat, k: nat, st: State, st1: State, st2: State)
    requires f.Valid() && one.SetNumber? && two.SetNumber? && LineSays(w, f, 1, one) && LineSays(w, f, 2, two)
    requires LineSays(w, f, 3, EndAbi(x, false)) && i == f.o[1] && j == f.o[2] && k == f.o[3]
    requires st1 == Perform(w, st, one) && st2 == Perform(w, st1, two)
    requires !st.Stopped() && !st1.Stopped() && !st2.Stopped() && st2.regcount == 0
    ensures i < |f.text| && Walk(w, f.text, i, x, 0, true, 0, st) == st2
  {
    LineTurn(w, f, 1, i, j, x, one, st, st1);
    LineTurn(w, f, 2, j, k, x, two, st1, st2);
    EndTurn(w, f, 3, k, x, st2);
  }

  lemma SecondNumber(w: Words, st: State, field: Field, u: nat, v: nat)
    requires st == START.(beginSeen := true) && Fits(NumberItem(field, u)) && Fits(NumberItem(field, v))
    ensures var st1 := Perform(w, st, SetNumber(field, Num(u), false));
      var st2 := Perform(w, st1, SetNumber(field, Num(v), false));
      st1.stop == st2.stop == Running && st2.errs == 1 && st2.regcount == 0
  {
  }

  /** The names at both ends must agree and have nothing behind them. */
  lemma EndsAgree(w: Words, f: File, x: string, y: string, e1: bool, e2: bool)
    requires f.Valid() && HoldsBegin(w, f, x, e1) && LineSays(w, f, 1, EndAbi(y, e2))
    ensures var r := Read(w, f.text, Some(x), 0, START);
      && (r.outcome == ReadAbi <==> x == y && !e1 && !e2) && (r.outcome == ReadError <==> x != y || e1 || e2)
      && r.state.errs == (if e1 then 1 else 0) + (if x != y || e2 then 1 else 0)
  {
    var st := START.(errs := if e1 then 1 else 0, beginSeen := true);
    var end := EndAbi(y, e2);
    ParsesAt(w, f, 1, f.o[1], f.o[2], end);
    WalkTurn(w, f.text, f.o[1], f.o[2], end, x, 0, true, 0, st);
    BeginStarts(w, f, x, e1, f.o[1], st, Close(st, x, y, e2));
  }

  /** Without an endabi: line before the end of the file the read fails. */
  lemma EndMissing(w: Words, f: File, x: string)
    requires f.Valid() && HoldsBegin(w, f, x, false) && f.o[1] == |f.text|
    ensures var r := Read(w, f.text, Some(x), 0, START); r.outcome == ReadError && r.state.errs == 1
  {
    var st := START.(beginSeen := true);
    BeginStarts(w, f, x, false, f.o[1], st, st.(errs := 1));
  }

  /** More than one word behind includeabi: ends the read, which fails. */
  lemma IncludeOne(w: Words, f: File, x: string, y: string)
    requires f.Valid() && HoldsBegin(w, f, x, false) && LineSays(w, f, 1, IncludeAbi(y, true))
    ensures var r := Read(w, f.text, Some(x), 0, START); r.outcome == ReadError && r.state.errs == 1
  {
    var st, line := START.(beginSeen := true), IncludeAbi(y, true);
    ParsesAt(w, f, 1, f.o[1], f.o[2], line);
    WalkTurn(w, f.text, f.o[1], f.o[2], line, x, 0, true, 0, st);
    BeginStarts(w, f, x, false, f.o[1], st, st.(errs := 1));
  }

  /** A beginabi: line within an abi is an error. */
  lemma BeginTwice(w: Words, f: File, x: string)
    requires f.Valid() && HoldsBegin(w, f, x, false) && LineSays(w, f, 1, BeginAbi(x, false))
    requires LineSays(w, f, 2, EndAbi(x, false))
    ensures Read(w, f.text, Some(x), 0, START).outcome == ReadError
  {
    var st, begin := START.(beginSeen := true), BeginAbi(x, false);
    ParsesAt(w, f, 1, f.o[1], f.o[2], begin);
    WalkTurn(w, f.text, f.o[1], f.o[2], begin, x, 0, true, 0, st);
    EndTurn(w, f, 2, f.o[2], x, st.(errs := 1));
    BeginStarts(w, f, x, false, f.o[1], st, st.(errs := 1));
  }

  /** The third unknown line is the last that is read, whatever follows. */
  lemma ThreeUnknown(w: Words, f: File, x: string)
    requires f.Valid() && HoldsBegin(w, f, x, false)
    requires LineSays(w, f, 1, Unknown) && LineSays(w, f, 2, Unknown) && LineSays(w, f, 3, Unknown)
    ensures Read(w, f.text, Some(x), 0, START).outcome == ReadError
  {
    var st := START.(beginSeen := true);
    UnknownTurn(w, f, 1, f.o[1], f.o[2], x, 0, st, st.(errs := 1));
    UnknownTurn(w, f, 2, f.o[2], f.o[3], x, 1, st.(errs := 1), st.(errs := 2));
    ThirdUnknown(w, f, 3, f.o[3], x, st.(errs := 2), st.(errs := 3));
    BeginStarts(w, f, x, false, f.o[1], st, st.(errs := 3));
  }

  /** The first two are not. */
  lemma UnknownTurn(w: Words, f: File, k: nat, i: nat, end: nat, x: string, unknown: nat, st: State, st': State)
    requires f.Valid() && k < |f.lines| && i == f.o[k] && end == f.o[k + 1] && LineSays(w, f, k, Unknown)
    requires !st.Stopped() && unknown <= 1 && st' == st.(errs := st.errs + 1)
    ensures i < |f.text| && end <= |f.text|
    ensures Walk(w, f.text, i, x, 0, true, unknown, st) == Walk(w, f.text, end, x, 0, true, unknown + 1, st')
  {
    ParsesAt(w, f, k, i, end, Unknown);
    WalkTurn(w, f.text, i, end, Unknown, x, 0, true, unknown, st);
  }

  lemma ThirdUnknown(w: Words, f: File, k: nat, i: nat, x: string, st: State, st': State)
    requires f.Valid() && k < |f.lines| && i == f.o[k] && LineSays(w, f, k, Unknown)
    requires !st.Stopped() && st' == st.(errs := st.errs + 1)
    ensures i < |f.text| && Walk(w, f.text, i, x, 0, true, 2, st) == st'
  {
    ParsesAt(w, f, k, i, f.o[k + 1], Unknown);
    WalkTurn(w, f.text, i, f.o[k + 1], Unknown, x, 0, true, 2, st);
  }
}
