/** The counts of checks made and errors found per compiler
    (dd_compiler_info.c): what is detected, what is counted for whom, and the
    report at the end. */
module CompilerSpec {
  import opened CText
  import QSort

  const COMPILER_TABLE_MAX := 100
  const COMPILE_UNIT_NAME_LEN := 512

  /** Dwarf_Check_Categories, of which total_check_result is not a category
      anybody counts in but the total of the others. */
  const LAST_CATEGORY: nat := 25
  const TOTAL: Category := 22

  type Category = c: nat | c < 25

  datatype Kind = Checks | Errors

  datatype Result = Result(checks: int, errors: int) {
    function Of(kind: Kind): int {
      if kind == Checks then checks else errors
    }

    function Plus(kind: Kind, inc: int): Result {
      if kind == Checks then this.(checks := checks + inc) else this.(errors := errors + inc)
    }
  }

  type Results = r: seq<Result> | |r| == 25 witness Zeros(25)

  function Zeros(n: nat): (r: seq<Result>)
    ensures |r| == n
  {
    seq(n, _ => Result(0, 0))
  }

  const ZERO: Results := Zeros(25)

  datatype Compiler = Compiler(name: string, verified: bool, results: Results)

  /** The name of entry 0, and of the entries not in use, is not set. */
  const EMPTY := Compiler("", false, ZERO)

  /** The flags of the command line that pick compilers by family; while none
      is picked all are checked. */
  datatype Flags = Flags(snc: bool, gcc: bool)

  /** Entry 0 (all), the detected compilers from entry 1 on, the targeted ones,
      the index of the current compiler (-1: none yet), whether it is checked. */
  datatype Table = Table(all: Compiler, detected: seq<Compiler>, targeted: seq<Compiler>,
                         current: int, checked: bool, checkAll: bool)

  function Lower(c: char): char {
    if 'A' <= c <= 'Z' then c - 'A' + 'a' else c
  }

  /** Equal but for the case of an ASCII letter. */
  predicate SameLetter(c: char, d: char) {
    c == d || ('A' <= c <= 'Z' && d as int == c as int + 32) || ('A' <= d <= 'Z' && c as int == d as int + 32)
  }

  lemma FoldedIsSameLetter(c: char, d: char)
    ensures Lower(c) == Lower(d) <==> SameLetter(c, d)
  {
  }

  predicate MatchesAt(container: string, i: nat, contained: string) {
    i + |contained| <= |container| && forall k :: 0 <= k < |contained| ==>
        Lower(container[i + k]) == Lower(contained[k])
  }

  /** The contained string starts, in any case, at some character. */
  predicate Contains(container: string, contained: string) {
    exists i :: 0 <= i < |container| && MatchesAt(container, i, contained)
  }

  predicate HasPrefix(s: string, prefix: string) {
    |prefix| <= |s| && s[..|prefix|] == prefix
  }

  function Named(): Compiler -> string {
    (c: Compiler) => c.name
  }

  /** The first compiler from i on that has the name; the end if none has. */
  function IndexOf(s: seq<Compiler>, name: string, i: nat): (k: nat)
    requires i <= |s|
    ensures i <= k <= |s|
    ensures k < |s| ==> s[k].name == name
    ensures forall j :: i <= j < k ==> s[j].name != name
    decreases |s| - i
  {
    if i == |s| || s[i].name == name then i else IndexOf(s, name, i + 1)
  }

  function FirstTarget(targeted: seq<Compiler>, producer: string, i: nat): (k: nat)
    requires i <= |targeted|
    ensures i <= k <= |targeted|
    ensures k < |targeted| ==> Contains(producer, targeted[k].name)
    ensures forall j :: i <= j < k ==> !Contains(producer, targeted[j].name)
    decreases |targeted| - i
  {
    if i == |targeted| || Contains(producer, targeted[i].name) then i else FirstTarget(targeted, producer, i + 1)
  }

  /** What fits of a producer's name. */
  function Truncated(producer: string): (name: string)
    ensures name == if |producer| <= 511 then producer else producer[..511]
  {
    Prefix(producer, COMPILE_UNIT_NAME_LEN - 1)
  }

  predicate ByFamily(checkAll: bool, flags: Flags, name: string) {
    checkAll || (HasPrefix(name, "SN") && flags.snc) || (HasPrefix(name, "GNU") && flags.gcc)
  }

  function Target(t: Table, flags: Flags, name: string): Table {
    if t.targeted == [] then t.(checked := ByFamily(t.checkAll, flags, name))
    else
      var k := FirstTarget(t.targeted, name, 0);
      if k == |t.targeted| then t.(checked := false)
      else t.(checked := true, targeted := t.targeted[k := t.targeted[k].(verified := true)])
  }

  function Choose(t: Table, name: string): Table {
    var k := IndexOf(t.detected, name, 0);
    if k < |t.detected| then t.(current := k + 1)
    else if |t.detected| + 1 < COMPILER_TABLE_MAX then
      t.(detected := t.detected + [EMPTY.(name := name)], current := |t.detected| + 1)
    else t
  }

  function Detect(t: Table, flags: Flags, producer: string): Table {
    Choose(Target(t, flags, Truncated(producer)), Truncated(producer))
  }

  function Bump(r: Results, cat: Category, kind: Kind, inc: int): Results {
    r[cat := r[cat].Plus(kind, inc)]
  }

  /** A count goes to its category and to the total; one of checks shows that
      the compiler was verified. */
  function CountFor(c: Compiler, cat: Category, kind: Kind, inc: int): Compiler {
    c.(results := Bump(Bump(c.results, cat, kind, inc), TOTAL, kind, inc))
  }

  function Verified(c: Compiler, kind: Kind): Compiler {
    c.(verified := c.verified || kind == Checks)
  }

  predicate InUse(t: Table) {
    |t.detected| < COMPILER_TABLE_MAX && (t.current == -1 || 1 <= t.current <= |t.detected|)
  }

  function Count(t: Table, cat: Category, kind: Kind, inc: int): Table
    requires InUse(t)
  {
    var all := t.(all := CountFor(t.all, cat, kind, inc));
    if t.current > 0 then
      var k := t.current - 1;
      all.(detected := t.detected[k := Verified(CountFor(t.detected[k], cat, kind, inc), kind)])
    else all
  }

  function Record(t: Table, name: string): Table {
    if |t.targeted| + 1 < COMPILER_TABLE_MAX then
      t.(targeted := t.targeted + [EMPTY.(name := name)], checkAll := false)
    else t
  }

  /** Most errors first; equal counts by name, the greater one first. */
  function Compare(c1: Compiler, c2: Compiler): int {
    var cnt1, cnt2 := c1.results[TOTAL].errors, c2.results[TOTAL].errors;
    if cnt1 < cnt2 then 1 else if cnt1 > cnt2 then -1 else StrCmp(c2.name, c1.name)
  }

  function LessEq(): (Compiler, Compiler) -> bool {
    (a, b) => Compare(a, b) <= 0
  }

  lemma CompareIsOrder()
    ensures QSort.TotalOrder(LessEq())
  {
    forall a, b ensures LessEq()(a, b) || LessEq()(b, a) {
      StrCmpIsOrder(a.name, b.name, a.name);
    }
    forall a, b, c | LessEq()(a, b) && LessEq()(b, c) ensures LessEq()(a, c) {
      StrCmpIsOrder(c.name, b.name, a.name);
    }
  }

  /** The sort before the report.  The current index is left as it is. */
  function Report(t: Table): Table {
    if |t.detected| > 1 then t.(detected := QSort.Sort(LessEq(), t.detected)) else t
  }
}
