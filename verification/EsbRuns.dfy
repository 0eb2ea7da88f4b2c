/** Whole runs of buffer operations, the formatted appends included. */
module EsbRuns {
  import opened CText
  import opened EsbBuffer
  import opened NumberText
  import opened EsbPrintf

  datatype Op =
    | OpAppend(s: Option<string>)
    | OpAppendn(t: string, n: nat)
    | OpPrintfU(uFormat: string, u: uint64)
    | OpPrintfI(iFormat: string, i: int64)
    | OpPrintfS(sFormat: string, str: string)
    | OpEmpty
    | OpForce(minLen: nat)
    | OpGet
    | OpAllocSize(size: nat)

  /** esb_alloc_size never stores zero. */
  function AllocSizeOf(size: nat): (r: nat)
    ensures (size >= 1 ==> r == size) && (size == 0 ==> r == 1)
  {
    if size < 1 then 1 else size
  }

  /** What an operation means for the contents: emptied, or text added. */
  datatype Event = Emptied | Added(text: string)

  function EventOf(op: Op): Event {
    match op
    case OpAppend(s) => Added(if s.None? then "" else s.value[..StrLen(s.value)])
    case OpAppendn(t, n) => Added(if StrLen(t) < n then BAD_CALL else t[..n])
    case OpPrintfU(format, v) => Added(TextU(MESSAGES_U, format, v))
    case OpPrintfI(format, v) => Added(TextI(MESSAGES_I, format, v))
    case OpPrintfS(format, t) => Added(TextS(MESSAGES_S, format, t))
    case OpEmpty => Emptied
    case _ => Added("")
  }

  function Events(ops: seq<Op>): (events: seq<Event>)
    ensures |events| == |ops|
  {
    seq(|ops|, i requires 0 <= i < |ops| => EventOf(ops[i]))
  }

  function TextOf(e: Event): string {
    if e.Added? then e.text else ""
  }

  /** All texts added, in order. */
  function AllText(events: seq<Event>): string {
    if events == [] then "" else TextOf(events[0]) + AllText(events[1..])
  }

  /** The events after the last Emptied. */
  function SinceEmpty(events: seq<Event>): seq<Event> {
    if Emptied !in events then events else SinceEmpty(events[1..])
  }

  /** What a run leaves in a buffer that held t before it. */
  function After(t: string, events: seq<Event>): string {
    if Emptied in events then AllText(SinceEmpty(events)) else t + AllText(events)
  }

  lemma {:induction false} AllTextSnoc(events: seq<Event>, text: string)
    ensures AllText(events + [Added(text)]) == AllText(events) + text
  {
    var more := events + [Added(text)];
    if events == [] {
      assert more[1..] == [];
    } else {
      AllTextSnoc(events[1..], text);
      assert more[1..] == events[1..] + [Added(text)];
      Assoc(TextOf(events[0]), AllText(events[1..]), text);
    }
  }

  lemma {:induction false} SinceEmptySnoc(events: seq<Event>, e: Event)
    ensures SinceEmpty(events + [e]) == if e.Emptied? then [] else SinceEmpty(events) + [e]
  {
    var more := events + [e];
    if events == [] {
      assert more == [e] && more[1..] == [];
    } else {
      SinceEmptySnoc(events[1..], e);
      assert more[1..] == events[1..] + [e];
      assert e in more && forall x :: x in events ==> x in more;
    }
  }

  /** One more event empties the text or extends it. */
  lemma {:induction false} AfterSnoc(t: string, events: seq<Event>, e: Event)
    ensures After(t, events + [e]) == if e.Emptied? then "" else After(t, events) + e.text
  {
    SinceEmptySnoc(events, e);
    assert e in events + [e];
    if e.Added? {
      AllTextSnoc(events, e.text);
      AllTextSnoc(SinceEmpty(events), e.text);
      assert Emptied in events + [e] <==> Emptied in events;
    }
  }

  lemma AfterNext(t: string, events: seq<Event>, k: nat)
    requires k < |events|
    ensures After(t, events[..k + 1]) == if events[k].Emptied? then "" else After(t, events[..k]) + events[k].text
  {
    assert events[..k + 1] == events[..k] + [events[k]];
    AfterSnoc(t, events[..k], events[k]);
  }

  /** One operation; the result is the allocation size from then on. */
  method Perform(data: Esb, op: Op, allocSize0: nat) returns (allocSize: nat)
    requires data.Valid() && allocSize0 >= 1
    modifies data, data.str
    ensures allocSize >= 1 && data.Valid() && data.Grown()
    ensures match EventOf(op)
      case Emptied => data.appended == ""
      case Added(text) => data.appended == old(data.appended) + text
  {
    allocSize := allocSize0;
    assert old(data.appended) + "" == old(data.appended);
    match op
    case OpAppend(s) => data.Append(s, allocSize);
    case OpAppendn(s, n) => data.Appendn(s, n, allocSize);
    case OpPrintfU(format, v) => AppendPrintfU(MESSAGES_U, data, format, v, allocSize);
    case OpPrintfI(format, v) => AppendPrintfI(MESSAGES_I, data, format, v, allocSize);
    case OpPrintfS(format, t) => AppendPrintfS(MESSAGES_S, data, format, t, allocSize);
    case OpEmpty => data.EmptyString(allocSize);
    case OpForce(minLen) => data.ForceAllocation(minLen, allocSize);
    case OpGet => var _ := data.GetString(allocSize);
    case OpAllocSize(size) => allocSize := AllocSizeOf(size);
  }

  /** Every run from a valid buffer, under any sequence of allocation sizes:
      the contents are the text appended since the last empty, cut to the
      capacity when the buffer is rigid. */
  method Run(data: Esb, ops: seq<Op>, allocSize0: nat)
    requires data.Valid() && allocSize0 >= 1
    modifies data, data.str
    ensures data.Valid() && data.Grown()
    ensures data.Contents() == Clip(data.rigid, data.allocatedSize, After(old(data.appended), Events(ops)))
  {
    var allocSize := allocSize0;
    ghost var t := data.appended;
    ghost var events := Events(ops);
    for k := 0 to |ops|
      invariant allocSize >= 1
      invariant data.Valid() && data.Grown()
      invariant data.appended == After(t, events[..k])
    {
      AfterNext(t, events, k);
      allocSize := Perform(data, ops[k], allocSize);
    }
    assert events[..|ops|] == events;
  }
}
