/** Aligner and compressed decoder together: a program written to memory comes out expanded. */
module FrontEnd {
  import opened Words
  import opened Aligner
  import opened RvcSpec
  import opened CompressedDecoder
  import opened CompressedProofs

  /** A 32-bit instruction as its word, or a compressed one by name. */
  datatype Item = Full(word: Word) | Short(c: Rvc)

  ghost predicate Encodable(fp: bool, item: Item) {
    match item
    case Full(w) => Wide(w.low)
    case Short(c) => Legal(fp, c)
  }

  function Bytes(item: Item): int {
    if item.Full? then 4 else 2
  }

  /** The items lie one after the other from `pc` on. */
  ghost predicate Holds(mem: Memory, pc: Addr, items: seq<Item>)
    decreases |items|
  {
    items != [] ==>
      && (match items[0]
          case Full(w) => WordAt(mem, pc) == w
          case Short(c) => mem(pc) == Encode16(c))
      && Holds(mem, Plus(pc, Bytes(items[0])), items[1..])
  }

  function Expansion(item: Item): Word {
    match item
    case Full(w) => w
    case Short(c) => Encode32(Expand(c))
  }

  function Address(pc: Addr, items: seq<Item>, k: nat): Addr
    requires k <= |items|
    decreases k
  {
    if k == 0 then pc else Address(Plus(pc, Bytes(items[0])), items[1..], k - 1)
  }

  lemma ItemDecodes(fp: bool, mem: Memory, pc: Addr, items: seq<Item>, instr: Word)
    requires items != [] && Holds(mem, pc, items) && Encodable(fp, items[0]) && Carries(mem, pc, instr)
    ensures Decompress(fp, instr) == Ok(Expansion(items[0]))
    ensures IsCompressed(instr) <==> items[0].Short?
  {
    if items[0].Short? {
      DecompressExpands(fp, items[0].c, instr.high);
      assert Word(instr.high, instr.low) == instr;
    }
  }

  /** Event `k` of a trace is item `k` of the program, at its address. */
  predicate Matches(fp: bool, pc: Addr, items: seq<Item>, k: nat, e: Event)
    requires k < |items|
  {
    && e.Deliver? && e.pc == Address(pc, items, k)
    && Decompress(fp, e.instr) == Ok(Expansion(items[k]))
    && (IsCompressed(e.instr) <==> items[k].Short?)
  }

  lemma HeadMatches(fp: bool, mem: Memory, pc: Addr, items: seq<Item>, e: Event)
    requires items != [] && Holds(mem, pc, items) && Encodable(fp, items[0])
    requires e.Deliver? && e.pc == pc && Carries(mem, pc, e.instr)
    ensures Matches(fp, pc, items, 0, e)
  {
    ItemDecodes(fp, mem, pc, items, e.instr);
  }

  lemma TailMatches(fp: bool, pc: Addr, items: seq<Item>, k: nat, e: Event)
    requires 0 < k < |items| && Matches(fp, Plus(pc, Bytes(items[0])), items[1..], k - 1, e)
    ensures Matches(fp, pc, items, k, e)
  {
    assert items[1..][k - 1] == items[k];
  }

  /** The walk goes on behind the first item. */
  lemma WalkTail(mem: Memory, pc: Addr, items: seq<Item>, trace: seq<Event>)
    requires items != [] && Holds(mem, pc, items) && trace != [] && trace[0].Deliver?
    requires Follows(mem, Position(pc, None), trace) && Size(mem, pc) == Bytes(items[0])
    ensures trace[0].pc == pc && Carries(mem, pc, trace[0].instr)
    ensures Holds(mem, Plus(pc, Bytes(items[0])), items[1..])
    ensures Follows(mem, Position(Plus(pc, Bytes(items[0])), None), trace[1..])
  {
  }

  lemma ItemSize(fp: bool, mem: Memory, pc: Addr, items: seq<Item>)
    requires items != [] && Holds(mem, pc, items) && Encodable(fp, items[0])
    ensures Size(mem, pc) == Bytes(items[0])
  {
    if items[0].Short? {
      DecompressExpands(fp, items[0].c, mem(pc));
    }
  }

  /** A delivered walk over a held program decodes to its expansions, in order, at its addresses. */
  lemma {:induction false} WalkDecodes(fp: bool, mem: Memory, pc: Addr, items: seq<Item>, trace: seq<Event>, k: nat)
    requires Holds(mem, pc, items) && Follows(mem, Position(pc, None), trace)
    requires forall j :: 0 <= j < |items| ==> Encodable(fp, items[j])
    requires forall j :: 0 <= j < |trace| ==> trace[j].Deliver?
    requires k < |items| && k < |trace|
    ensures Matches(fp, pc, items, k, trace[k])
    decreases k
  {
    ItemSize(fp, mem, pc, items);
    WalkTail(mem, pc, items, trace);
    if k == 0 {
      HeadMatches(fp, mem, pc, items, trace[0]);
    } else {
      WalkDecodes(fp, mem, Plus(pc, Bytes(items[0])), items[1..], trace[1..], k - 1);
      TailMatches(fp, pc, items, k, trace[k]);
    }
  }

  /** Round trip: a list of 16- and 32-bit instructions encoded at any address the aligner stands at,
      under any stalls and late words, comes back as the list of its expansions once the IF stage
      has moved often enough. */
  lemma RoundTrip(fp: bool, mem: Memory, y: System, pc: Addr, items: seq<Item>, ins: seq<Input>)
    requires Represents(mem, y, Position(pc, None)) && AllAllowed(mem, y, ins) && Quiet(ins)
    requires Holds(mem, pc, items) && forall j :: 0 <= j < |items| ==> Encodable(fp, items[j])
    requires Moves(ins) >= |items| + if NeedsSecondWord(mem, y.a) then 1 else 0
    ensures var trace := Trace(y, ins);
            |trace| >= |items| &&
            forall k :: 0 <= k < |items| ==> Matches(fp, pc, items, k, trace[k])
  {
    var trace := Trace(y, ins);
    AlignerFollowsMemory(mem, y, Position(pc, None), ins);
    EveryMoveDelivers(mem, y, Position(pc, None), ins);
    forall k | 0 <= k < |items|
      ensures Matches(fp, pc, items, k, trace[k])
    {
      WalkDecodes(fp, mem, pc, items, trace, k);
    }
  }

  /** The same from a jump to any even address, whatever the aligner was doing. */
  lemma RoundTripFromJump(fp: bool, mem: Memory, y: System, jump: Input, items: seq<Item>, ins: seq<Input>)
    requires jump.branch && InSpace(jump.branchAddr) && jump.branchAddr % 2 == 0
    requires AllAllowed(mem, Next(y, jump), ins) && Quiet(ins) && Moves(ins) > |items|
    requires Holds(mem, jump.branchAddr, items) && forall j :: 0 <= j < |items| ==> Encodable(fp, items[j])
    ensures var trace := Trace(Next(y, jump), ins);
            |trace| >= |items| &&
            forall k :: 0 <= k < |items| ==> Matches(fp, jump.branchAddr, items, k, trace[k])
  {
    Entry(mem, y, Position(0, None), jump);
    RoundTrip(fp, mem, Next(y, jump), jump.branchAddr, items, ins);
  }
}
