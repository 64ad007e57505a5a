/** Matching IF, ELSE and ENDIF lines of a Basic program with a stack and a list of blocks. */
module IfBlocks {
  import opened Numbers

  const STACK_SIZE: nat := 10
  const LIST_SIZE: nat := 300

  /** The ELSE and ENDIF positions are kept as one-byte distances from the IF; 0 means no ELSE. */
  datatype IfBlock = IfBlock(ifPos: nat, elseOffset: nat, endOffset: nat)

  datatype Line = IfLine(pos: nat) | ElseLine(pos: nat) | EndifLine(pos: nat)

  /** `overrun` records a write behind the ten stack slots. */
  datatype State = State(stack: seq<IfBlock>, list: seq<IfBlock>, overrun: bool)

  function OneByte(n: int): nat {
    n % 256
  }

  /** Scanning one line. The test for a full stack comes one entry too late. */
  function Scan(s: State, line: Line): State {
    match line
    case IfLine(pos) =>
      if |s.stack| >= STACK_SIZE + 1 then s
      else s.(stack := s.stack + [IfBlock(pos, 0, 0)], overrun := s.overrun || |s.stack| == STACK_SIZE)
    case ElseLine(pos) =>
      if s.stack == [] then s
      else
        var top := |s.stack| - 1;
        s.(stack := s.stack[top := s.stack[top].(elseOffset := OneByte(pos - s.stack[top].ifPos))])
    case EndifLine(pos) =>
      if s.stack == [] || |s.list| >= LIST_SIZE then s
      else
        var top := |s.stack| - 1;
        s.(list := s.list + [s.stack[top].(endOffset := OneByte(pos - s.stack[top].ifPos))], stack := s.stack[..top])
  }

  function ScanAll(s: State, lines: seq<Line>): State
    decreases |lines|
  {
    if lines == [] then s else ScanAll(Scan(s, lines[0]), lines[1..])
  }

  function ElseOrEnd(b: IfBlock): nat {
    b.ifPos + if b.elseOffset > 0 then b.elseOffset else b.endOffset
  }

  function GetElse(list: seq<IfBlock>, ifPos: nat): nat {
    if list == [] then 0
    else if list[0].ifPos == ifPos then ElseOrEnd(list[0])
    else GetElse(list[1..], ifPos)
  }

  function GetEndIf(list: seq<IfBlock>, elsePos: nat): nat {
    if list == [] then 0
    else if list[0].elseOffset + list[0].ifPos == elsePos then list[0].endOffset + list[0].ifPos
    else GetEndIf(list[1..], elsePos)
  }

  // ---- The grammar ----

  /** A well-nested program, by the positions of its lines. */
  datatype Program =
    | Done
    | If(ifPos: nat, body: Program, endPos: nat, next: Program)
    | IfElse(ifPos: nat, body: Program, elsePos: nat, elseBody: Program, endPos: nat, next: Program)

  function Lines(p: Program): seq<Line> {
    match p
    case Done => []
    case If(i, body, e, next) => [IfLine(i)] + (Lines(body) + ([EndifLine(e)] + Lines(next)))
    case IfElse(i, body, l, elseBody, e, next) =>
      [IfLine(i)] + (Lines(body) + ([ElseLine(l)] + (Lines(elseBody) + ([EndifLine(e)] + Lines(next)))))
  }

  function Depth(p: Program): nat {
    match p
    case Done => 0
    case If(_, body, _, next) => Max(1 + Depth(body), Depth(next))
    case IfElse(_, body, _, elseBody, _, next) => Max(1 + Max(Depth(body), Depth(elseBody)), Depth(next))
  }

  function Size(p: Program): nat {
    match p
    case Done => 1
    case If(_, body, _, next) => 1 + Size(body) + Size(next)
    case IfElse(_, body, _, elseBody, _, next) => 1 + Size(body) + Size(elseBody) + Size(next)
  }

  function Count(p: Program): nat {
    match p
    case Done => 0
    case If(_, body, _, next) => 1 + Count(body) + Count(next)
    case IfElse(_, body, _, elseBody, _, next) => 1 + Count(body) + Count(elseBody) + Count(next)
  }

  /** Positions increase from line to line, strictly between `lo` and `hi`. */
  ghost predicate Placed(p: Program, lo: nat, hi: nat) {
    match p
    case Done => lo < hi
    case If(i, body, e, next) => lo < i && Placed(body, i, e) && Placed(next, e, hi)
    case IfElse(i, body, l, elseBody, e, next) =>
      lo < i && Placed(body, i, l) && Placed(elseBody, l, e) && Placed(next, e, hi)
  }

  /** `b` is one of the blocks of `p`, at any depth. */
  ghost predicate Within(b: Program, p: Program) {
    match p
    case Done => false
    case If(_, body, _, next) => b == p || Within(b, body) || Within(b, next)
    case IfElse(_, body, _, elseBody, _, next) =>
      b == p || Within(b, body) || Within(b, elseBody) || Within(b, next)
  }

  /** What the list should hold for one block. */
  function Entry(b: Program): IfBlock
    requires !b.Done?
  {
    IfBlock(b.ifPos, if b.IfElse? then OneByte(b.elsePos - b.ifPos) else 0, OneByte(b.endPos - b.ifPos))
  }

  /** The list after a complete scan: inner blocks before outer ones. */
  function Entries(p: Program): seq<IfBlock> {
    match p
    case Done => []
    case If(_, body, _, next) => Entries(body) + [Entry(p)] + Entries(next)
    case IfElse(_, body, _, elseBody, _, next) => Entries(body) + Entries(elseBody) + [Entry(p)] + Entries(next)
  }

  // ---- Scanning a well-nested program ----

  lemma ScanCons(s: State, line: Line, rest: seq<Line>)
    ensures ScanAll(s, [line] + rest) == ScanAll(Scan(s, line), rest)
  {
    assert ([line] + rest)[1..] == rest;
  }

  function WithList(s: State, more: seq<IfBlock>): State {
    s.(list := s.list + more)
  }

  function WithOpen(s: State, open: IfBlock): State {
    s.(stack := s.stack + [open])
  }

  lemma WithListTwice(s: State, a: seq<IfBlock>, b: seq<IfBlock>)
    ensures WithList(WithList(s, a), b) == WithList(s, a + b)
  {
    assert s.list + a + b == s.list + (a + b);
  }

  lemma NoList(s: State)
    ensures WithList(s, []) == s
  {
    assert s.list + [] == s.list;
  }

  /** ELSE and ENDIF act on the innermost open block. */
  lemma ScanElse(s: State, open: IfBlock, l: nat)
    ensures Scan(WithOpen(s, open), ElseLine(l))
         == WithOpen(s, open.(elseOffset := OneByte(l - open.ifPos)))
  {
    var t := s.(stack := s.stack + [open]);
    assert t.stack[|s.stack| := open.(elseOffset := OneByte(l - open.ifPos))]
        == s.stack + [open.(elseOffset := OneByte(l - open.ifPos))];
  }

  lemma ScanEndif(s: State, open: IfBlock, e: nat)
    requires |s.list| < LIST_SIZE
    ensures Scan(WithOpen(s, open), EndifLine(e))
         == WithList(s, [open.(endOffset := OneByte(e - open.ifPos))])
  {
    assert (s.stack + [open])[..|s.stack|] == s.stack;
  }

  lemma ScanIfLine(s: State, i: nat)
    requires |s.stack| < STACK_SIZE
    ensures Scan(s, IfLine(i)) == WithOpen(s, IfBlock(i, 0, 0))
  {}

  /** Scanning a program that fits leaves the stack as it was and appends its blocks to the list. */
  lemma {:induction false} ScanProgram(s: State, p: Program, rest: seq<Line>)
    requires |s.stack| + Depth(p) <= STACK_SIZE && |s.list| + Count(p) <= LIST_SIZE
    ensures ScanAll(s, Lines(p) + rest) == ScanAll(WithList(s, Entries(p)), rest)
    ensures |Entries(p)| == Count(p)
    decreases Size(p), 1
  {
    hide ScanAll, Scan, WithList, WithOpen;
    match p {
      case Done =>
        NoList(s);
        assert [] + rest == rest;
      case If(i, body, e, next) => ScanIf(s, p, rest);
      case IfElse(i, body, l, elseBody, e, next) => ScanIfElse(s, p, rest);
    }
  }

  lemma {:induction false} ScanIf(s: State, p: Program, rest: seq<Line>)
    requires p.If? && |s.stack| + Depth(p) <= STACK_SIZE && |s.list| + Count(p) <= LIST_SIZE
    ensures ScanAll(s, Lines(p) + rest) == ScanAll(WithList(s, Entries(p)), rest)
    ensures |Entries(p)| == Count(p)
    decreases Size(p), 0
  {
    hide ScanAll, Scan, WithList, WithOpen;
    var If(i, body, e, next) := p;
    var inside := Lines(body) + ([EndifLine(e)] + (Lines(next) + rest));
    IfLines(p, rest);
    ScanCons(s, IfLine(i), inside);
    ScanIfLine(s, i);
    ScanToEnd(s, IfBlock(i, 0, 0), body, e, next, rest);
  }

  lemma {:induction false} ScanIfElse(s: State, p: Program, rest: seq<Line>)
    requires p.IfElse? && |s.stack| + Depth(p) <= STACK_SIZE && |s.list| + Count(p) <= LIST_SIZE
    ensures ScanAll(s, Lines(p) + rest) == ScanAll(WithList(s, Entries(p)), rest)
    ensures |Entries(p)| == Count(p)
    decreases Size(p), 0
  {
    hide ScanAll, Scan, WithList, WithOpen;
    var IfElse(i, body, l, elseBody, e, next) := p;
    var second := Lines(elseBody) + ([EndifLine(e)] + (Lines(next) + rest));
    assert Lines(p) + rest == [IfLine(i)] + (Lines(body) + ([ElseLine(l)] + second)) by {
      IfElseLines(p, rest);
    }
    ScanCons(s, IfLine(i), Lines(body) + ([ElseLine(l)] + second));
    ScanIfLine(s, i);
    var open := IfBlock(i, 0, 0);
    ScanOpen(s, open, body, [ElseLine(l)] + second);
    var t := WithList(s, Entries(body));
    ScanCons(WithOpen(t, open), ElseLine(l), second);
    ScanElse(t, open, l);
    ScanToEnd(t, open.(elseOffset := OneByte(l - i)), elseBody, e, next, rest);
    WithListTwice(s, Entries(body), Entries(elseBody) + [Entry(p)] + Entries(next));
    IfElseEntries(p);
  }

  lemma IfLines(p: Program, rest: seq<Line>)
    requires p.If?
    ensures Lines(p) + rest == [IfLine(p.ifPos)] + (Lines(p.body) + ([EndifLine(p.endPos)] + (Lines(p.next) + rest)))
  {
    var a, c := Lines(p.body), Lines(p.next);
    Regroup([EndifLine(p.endPos)], c, rest);
    Regroup(a, [EndifLine(p.endPos)] + c, rest);
    Regroup([IfLine(p.ifPos)], a + ([EndifLine(p.endPos)] + c), rest);
  }

  lemma IfElseLines(p: Program, rest: seq<Line>)
    requires p.IfElse?
    ensures Lines(p) + rest == [IfLine(p.ifPos)] + (Lines(p.body) + ([ElseLine(p.elsePos)] +
              (Lines(p.elseBody) + ([EndifLine(p.endPos)] + (Lines(p.next) + rest)))))
  {
    var a, b, c := Lines(p.body), Lines(p.elseBody), Lines(p.next);
    Regroup([EndifLine(p.endPos)], c, rest);
    Regroup(b, [EndifLine(p.endPos)] + c, rest);
    Regroup([ElseLine(p.elsePos)], b + ([EndifLine(p.endPos)] + c), rest);
    Regroup(a, [ElseLine(p.elsePos)] + (b + ([EndifLine(p.endPos)] + c)), rest);
    Regroup([IfLine(p.ifPos)], a + ([ElseLine(p.elsePos)] + (b + ([EndifLine(p.endPos)] + c))), rest);
  }

  lemma Regroup(a: seq<Line>, b: seq<Line>, c: seq<Line>)
    ensures (a + b) + c == a + (b + c)
  {}

  lemma IfElseEntries(p: Program)
    requires p.IfElse?
    ensures Entries(p) == Entries(p.body) + (Entries(p.elseBody) + [Entry(p)] + Entries(p.next))
  {}

  /** Scanning a body with a block open around it. */
  lemma {:induction false} ScanOpen(s: State, open: IfBlock, body: Program, rest: seq<Line>)
    requires |s.stack| + 1 + Depth(body) <= STACK_SIZE && |s.list| + Count(body) <= LIST_SIZE
    ensures ScanAll(WithOpen(s, open), Lines(body) + rest)
         == ScanAll(WithOpen(WithList(s, Entries(body)), open), rest)
    ensures |Entries(body)| == Count(body) && |WithList(s, Entries(body)).list| == |s.list| + Count(body)
    ensures WithList(s, Entries(body)).stack == s.stack
    decreases Size(body), 2
  {
    ScanProgram(WithOpen(s, open), body, rest);
  }

  /** Scanning the rest of an open block, its ENDIF and what follows. */
  lemma {:induction false} ScanToEnd(s: State, open: IfBlock, body: Program, e: nat, next: Program, rest: seq<Line>)
    requires |s.stack| + Max(1 + Depth(body), Depth(next)) <= STACK_SIZE
    requires |s.list| + Count(body) + 1 + Count(next) <= LIST_SIZE
    ensures ScanAll(WithOpen(s, open), Lines(body) + ([EndifLine(e)] + (Lines(next) + rest)))
         == ScanAll(WithList(s, Entries(body) + [open.(endOffset := OneByte(e - open.ifPos))] + Entries(next)), rest)
    ensures |Entries(body)| == Count(body) && |Entries(next)| == Count(next)
    decreases Size(body) + Size(next), 0
  {
    hide ScanAll, Scan, WithOpen;
    var closed := open.(endOffset := OneByte(e - open.ifPos));
    ScanOpen(s, open, body, [EndifLine(e)] + (Lines(next) + rest));
    var t := WithList(s, Entries(body));
    ScanCons(WithOpen(t, open), EndifLine(e), Lines(next) + rest);
    ScanEndif(t, open, e);
    ScanProgram(WithList(t, [closed]), next, rest);
    WithListTwice(t, [closed], Entries(next));
    WithListTwice(s, Entries(body), [closed] + Entries(next));
    assert Entries(body) + [closed] + Entries(next) == Entries(body) + ([closed] + Entries(next));
  }

  // ---- Looking blocks up ----

  /** Every distance fits in its byte. */
  ghost predicate Short(p: Program) {
    match p
    case Done => true
    case If(i, body, e, next) => e - i < 256 && Short(body) && Short(next)
    case IfElse(i, body, l, elseBody, e, next) => e - i < 256 && Short(body) && Short(elseBody) && Short(next)
  }

  /** The position `getEndIf` compares with. */
  function ElseKey(e: IfBlock): nat {
    e.elseOffset + e.ifPos
  }

  lemma {:induction false} EntriesBetween(p: Program, lo: nat, hi: nat)
    requires Placed(p, lo, hi)
    ensures lo < hi
    ensures forall e :: e in Entries(p) ==> lo < e.ifPos < hi
    decreases p
  {
    match p {
      case Done =>
      case If(i, body, e, next) =>
        EntriesBetween(body, i, e);
        EntriesBetween(next, e, hi);
      case IfElse(i, body, l, elseBody, e, next) =>
        EntriesBetween(body, i, l);
        EntriesBetween(elseBody, l, e);
        EntriesBetween(next, e, hi);
    }
  }

  /** A block's entry is in the list, and the only one with its IF position. */
  lemma {:induction false} OnlyEntry(p: Program, lo: nat, hi: nat, b: Program)
    requires Placed(p, lo, hi) && Within(b, p)
    ensures !b.Done? && Entry(b) in Entries(p)
    ensures forall e :: e in Entries(p) && e.ifPos == b.ifPos ==> e == Entry(b)
    decreases p
  {
    match p {
      case Done =>
      case If(i, body, e, next) =>
        EntriesBetween(body, i, e);
        EntriesBetween(next, e, hi);
        if Within(b, body) {
          OnlyEntry(body, i, e, b);
        } else if Within(b, next) {
          OnlyEntry(next, e, hi, b);
        }
      case IfElse(i, body, l, elseBody, e, next) =>
        EntriesBetween(body, i, l);
        EntriesBetween(elseBody, l, e);
        EntriesBetween(next, e, hi);
        if Within(b, body) {
          OnlyEntry(body, i, l, b);
        } else if Within(b, elseBody) {
          OnlyEntry(elseBody, l, e, b);
        } else if Within(b, next) {
          OnlyEntry(next, e, hi, b);
        }
    }
  }

  /** Every entry belongs to a block. */
  lemma {:induction false} EntryOf(p: Program, e: IfBlock) returns (c: Program)
    requires e in Entries(p)
    ensures Within(c, p) && !c.Done? && e == Entry(c)
    decreases p
  {
    match p {
      case Done =>
        c := p;
        assert false;
      case If(_, body, _, next) =>
        if e == Entry(p) {
          c := p;
        } else if e in Entries(body) {
          c := EntryOf(body, e);
        } else {
          c := EntryOf(next, e);
        }
      case IfElse(_, body, _, elseBody, _, next) =>
        if e == Entry(p) {
          c := p;
        } else if e in Entries(body) {
          c := EntryOf(body, e);
        } else if e in Entries(elseBody) {
          c := EntryOf(elseBody, e);
        } else {
          c := EntryOf(next, e);
        }
    }
  }

  /** An ELSE line is no other block's IF or ELSE line. */
  lemma {:induction false} DistinctLines(p: Program, lo: nat, hi: nat, b: Program, c: Program)
    requires Placed(p, lo, hi) && Within(b, p) && Within(c, p) && b.IfElse?
    ensures !c.Done? && c.ifPos != b.elsePos && (c.IfElse? && c.elsePos == b.elsePos ==> c == b)
    decreases p
  {
    PlacedBlock(p, lo, hi, b);
    PlacedBlock(p, lo, hi, c);
    match p {
      case Done =>
      case If(i, body, e, next) =>
        InnerLines(body, i, e, b);
        InnerLines(body, i, e, c);
        InnerLines(next, e, hi, b);
        InnerLines(next, e, hi, c);
        EntriesBetween(body, i, e);
        if Within(b, body) && Within(c, body) {
          DistinctLines(body, i, e, b, c);
        } else if Within(b, next) && Within(c, next) {
          DistinctLines(next, e, hi, b, c);
        }
      case IfElse(i, body, l, elseBody, e, next) =>
        InnerLines(body, i, l, b);
        InnerLines(body, i, l, c);
        InnerLines(elseBody, l, e, b);
        InnerLines(elseBody, l, e, c);
        InnerLines(next, e, hi, b);
        InnerLines(next, e, hi, c);
        EntriesBetween(body, i, l);
        EntriesBetween(elseBody, l, e);
        if Within(b, body) && Within(c, body) {
          DistinctLines(body, i, l, b, c);
        } else if Within(b, elseBody) && Within(c, elseBody) {
          DistinctLines(elseBody, l, e, b, c);
        } else if Within(b, next) && Within(c, next) {
          DistinctLines(next, e, hi, b, c);
        }
    }
  }

  /** The lines of a block of `p` lie between the bounds of `p`. */
  lemma {:induction false} InnerLines(p: Program, lo: nat, hi: nat, b: Program)
    requires Placed(p, lo, hi)
    ensures Within(b, p) ==> !b.Done? && lo < b.ifPos < hi && (b.IfElse? ==> lo < b.elsePos < hi)
    decreases p
  {
    match p {
      case Done =>
      case If(i, body, e, next) =>
        EntriesBetween(body, i, e);
        EntriesBetween(next, e, hi);
        InnerLines(body, i, e, b);
        InnerLines(next, e, hi, b);
      case IfElse(i, body, l, elseBody, e, next) =>
        EntriesBetween(body, i, l);
        EntriesBetween(elseBody, l, e);
        EntriesBetween(next, e, hi);
        InnerLines(body, i, l, b);
        InnerLines(elseBody, l, e, b);
        InnerLines(next, e, hi, b);
    }
  }

  lemma {:induction false} ShortBlock(p: Program, b: Program)
    requires Short(p) && Within(b, p)
    ensures !b.Done? && b.endPos - b.ifPos < 256
    decreases p
  {
    match p {
      case Done =>
      case If(i, body, e, next) =>
        if Within(b, body) {
          ShortBlock(body, b);
        } else if Within(b, next) {
          ShortBlock(next, b);
        }
      case IfElse(i, body, l, elseBody, e, next) =>
        if Within(b, body) {
          ShortBlock(body, b);
        } else if Within(b, elseBody) {
          ShortBlock(elseBody, b);
        } else if Within(b, next) {
          ShortBlock(next, b);
        }
    }
  }

  lemma {:induction false} PlacedBlock(p: Program, lo: nat, hi: nat, b: Program)
    requires Placed(p, lo, hi) && Within(b, p)
    ensures !b.Done? && b.ifPos < b.endPos && (b.IfElse? ==> b.ifPos < b.elsePos < b.endPos)
    decreases p
  {
    match p {
      case Done =>
      case If(i, body, e, next) =>
        EntriesBetween(body, i, e);
        if Within(b, body) {
          PlacedBlock(body, i, e, b);
        } else if Within(b, next) {
          PlacedBlock(next, e, hi, b);
        }
      case IfElse(i, body, l, elseBody, e, next) =>
        EntriesBetween(body, i, l);
        EntriesBetween(elseBody, l, e);
        if Within(b, body) {
          PlacedBlock(body, i, l, b);
        } else if Within(b, elseBody) {
          PlacedBlock(elseBody, l, e, b);
        } else if Within(b, next) {
          PlacedBlock(next, e, hi, b);
        }
    }
  }

  lemma {:induction false} GetElseFinds(list: seq<IfBlock>, e: IfBlock)
    requires e in list && forall x :: x in list && x.ifPos == e.ifPos ==> x == e
    ensures GetElse(list, e.ifPos) == ElseOrEnd(e)
  {
    if list[0].ifPos != e.ifPos {
      assert list == [list[0]] + list[1..];
      GetElseFinds(list[1..], e);
    } else {
      assert list[0] in list;
    }
  }

  lemma {:induction false} GetEndIfFinds(list: seq<IfBlock>, e: IfBlock)
    requires e in list && forall x :: x in list && ElseKey(x) == ElseKey(e) ==> x == e
    ensures GetEndIf(list, ElseKey(e)) == e.endOffset + e.ifPos
  {
    if ElseKey(list[0]) != ElseKey(e) {
      assert list == [list[0]] + list[1..];
      GetEndIfFinds(list[1..], e);
    } else {
      assert list[0] in list;
    }
  }

  /** The list that a complete scan of a program from an empty state leaves. */
  function ScannedList(p: Program): seq<IfBlock> {
    ScanAll(State([], [], false), Lines(p)).list
  }

  lemma ScannedIs(p: Program)
    requires Depth(p) <= STACK_SIZE && Count(p) <= LIST_SIZE
    ensures ScanAll(State([], [], false), Lines(p)) == State([], Entries(p), false)
  {
    hide Lines, Entries;
    ScanProgram(State([], [], false), p, []);
    assert Lines(p) + [] == Lines(p) && [] + Entries(p) == Entries(p);
  }

  /** In every well-nested program of at most ten levels and 300 blocks, `getElse` of an IF is its own ELSE,
      or its own ENDIF if it has none, exactly when that line is less than 256 lines further on. */
  lemma GetElseCorrect(p: Program, lo: nat, hi: nat, b: Program)
    requires Placed(p, lo, hi) && Depth(p) <= STACK_SIZE && Count(p) <= LIST_SIZE && Within(b, p)
    ensures !b.Done?
    ensures var target := if b.IfElse? then b.elsePos else b.endPos;
            GetElse(ScannedList(p), b.ifPos) == target <==> target - b.ifPos < 256
  {
    hide Within, Placed, Entries, Depth, Count;
    ScannedIs(p);
    OnlyEntry(p, lo, hi, b);
    PlacedBlock(p, lo, hi, b);
    GetElseFinds(Entries(p), Entry(b));
  }

  /** A block whose ELSE is 256 or more lines behind its IF, and whose shortened distance points at the ELSE of `b`. */
  predicate Aliases(c: Program, b: Program)
    requires b.IfElse?
  {
    c.IfElse? && c.elsePos - c.ifPos >= 256 && c.ifPos + OneByte(c.elsePos - c.ifPos) == b.elsePos
  }

  /** Unless a long block's shortened distance points at it, an ELSE is the key of its own entry only. */
  lemma OnlyKey(p: Program, lo: nat, hi: nat, b: Program, e: IfBlock)
    requires Placed(p, lo, hi) && Within(b, p) && b.IfElse? && e in Entries(p) && ElseKey(e) == b.elsePos
    requires forall c :: Within(c, p) ==> !Aliases(c, b)
    ensures e == Entry(b) && b.elsePos - b.ifPos < 256
  {
    hide Within, Placed, Entries;
    var c := EntryOf(p, e);
    DistinctLines(p, lo, hi, b, c);
    PlacedBlock(p, lo, hi, b);
    PlacedBlock(p, lo, hi, c);
    assert !Aliases(c, b);
  }

  /** In a program of at most ten levels and 300 blocks, `getEndIf` of an ELSE at which no long block's shortened
      distance points is its own ENDIF exactly when that is less than 256 lines behind the IF. The lengths of all
      other blocks do not matter. */
  lemma GetEndIfExact(p: Program, lo: nat, hi: nat, b: Program)
    requires Placed(p, lo, hi) && Depth(p) <= STACK_SIZE && Count(p) <= LIST_SIZE && Within(b, p) && b.IfElse?
    requires forall c :: Within(c, p) ==> !Aliases(c, b)
    ensures GetEndIf(ScannedList(p), b.elsePos) == b.endPos <==> b.endPos - b.ifPos < 256
  {
    hide Within, Placed, Entries, Depth, Count, Aliases;
    ScannedIs(p);
    OnlyEntry(p, lo, hi, b);
    PlacedBlock(p, lo, hi, b);
    forall e | e in Entries(p) && ElseKey(e) == b.elsePos ensures e == Entry(b) && b.elsePos - b.ifPos < 256 {
      OnlyKey(p, lo, hi, b, e);
    }
    if b.elsePos - b.ifPos < 256 {
      OwnKey(b);
      hide Entry, GetEndIf;
      GetEndIfFinds(Entries(p), Entry(b));
    } else {
      GetEndIfMisses(Entries(p), b.elsePos);
    }
  }

  lemma OwnKey(b: Program)
    requires b.IfElse? && b.ifPos < b.elsePos < b.endPos && b.elsePos < b.ifPos + 256
    ensures ElseKey(Entry(b)) == b.elsePos
    ensures Entry(b).endOffset + Entry(b).ifPos == b.endPos <==> b.endPos - b.ifPos < 256
  {}

  lemma {:induction false} GetEndIfMisses(list: seq<IfBlock>, elsePos: nat)
    requires forall e :: e in list ==> ElseKey(e) != elsePos
    ensures GetEndIf(list, elsePos) == 0
  {
    if list != [] {
      assert list[0] in list;
      GetEndIfMisses(list[1..], elsePos);
    }
  }

  lemma {:induction false} GetElseMisses(list: seq<IfBlock>, ifPos: nat)
    requires forall e :: e in list ==> e.ifPos != ifPos
    ensures GetElse(list, ifPos) == 0
  {
    if list != [] {
      assert list[0] in list;
      GetElseMisses(list[1..], ifPos);
    }
  }

  /** A stray ELSE or ENDIF is ignored, and so is an ENDIF once 300 blocks are listed. */
  lemma StrayLines(s: State, pos: nat)
    ensures s.stack == [] ==> Scan(s, ElseLine(pos)) == s && Scan(s, EndifLine(pos)) == s
    ensures |s.list| >= 300 ==> Scan(s, EndifLine(pos)) == s
  {}

  /** The first entry of the list with this key is at k. */
  predicate FirstKey(list: seq<IfBlock>, k: int, key: nat) {
    0 <= k < |list| && ElseKey(list[k]) == key && forall j :: 0 <= j < k ==> ElseKey(list[j]) != key
  }

  lemma {:induction false} GetEndIfFirst(list: seq<IfBlock>, k: int, key: nat)
    requires FirstKey(list, k, key)
    ensures GetEndIf(list, key) == list[k].endOffset + list[k].ifPos
    decreases k
  {
    if k > 0 {
      assert ElseKey(list[0]) != key;
      assert forall j :: 0 <= j < k - 1 ==> list[1..][j] == list[j + 1];
      GetEndIfFirst(list[1..], k - 1, key);
    }
  }

  lemma SomeFirstKey(list: seq<IfBlock>, key: nat)
    requires exists e :: e in list && ElseKey(e) == key
    ensures exists k :: FirstKey(list, k, key)
  {
    var n :| 0 <= n < |list| && ElseKey(list[n]) == key;
    var k := 0;
    while ElseKey(list[k]) != key
      invariant k <= n && forall j :: 0 <= j < k ==> ElseKey(list[j]) != key
      decreases n - k
    {
      k := k + 1;
    }
    assert FirstKey(list, k, key);
  }

  /** Whose entry has the ELSE of `b` as its key: its own, or that of a long block whose shortened distance points
      at it. */
  lemma KeyOwner(p: Program, lo: nat, hi: nat, b: Program, e: IfBlock) returns (c: Program)
    requires Placed(p, lo, hi) && Within(b, p) && b.IfElse? && e in Entries(p) && ElseKey(e) == b.elsePos
    ensures Within(c, p) && !c.Done? && e == Entry(c) && (c == b || Aliases(c, b))
  {
    hide Within, Placed, Entries;
    c := EntryOf(p, e);
    DistinctLines(p, lo, hi, b, c);
    PlacedBlock(p, lo, hi, b);
    PlacedBlock(p, lo, hi, c);
  }

  /** For any ELSE, and blocks of any length: `getEndIf` is its own ENDIF exactly when the first entry with that
      key, inner blocks coming before outer ones, leads there; and that entry is its own or one of a long block that
      points at it. */
  lemma GetEndIfAnyway(p: Program, lo: nat, hi: nat, b: Program)
    requires Placed(p, lo, hi) && Depth(p) <= STACK_SIZE && Count(p) <= LIST_SIZE && Within(b, p) && b.IfElse?
    ensures GetEndIf(ScannedList(p), b.elsePos) == b.endPos <==>
            exists k :: FirstKey(Entries(p), k, b.elsePos) && Entries(p)[k].endOffset + Entries(p)[k].ifPos == b.endPos
    ensures forall k :: FirstKey(Entries(p), k, b.elsePos) ==>
              exists c :: Within(c, p) && !c.Done? && Entries(p)[k] == Entry(c) && (c == b || Aliases(c, b))
  {
    hide Within, Placed, Entries, Depth, Count, Aliases, FirstKey, Entry;
    ScannedIs(p);
    PlacedBlock(p, lo, hi, b);
    var list := Entries(p);
    if exists e :: e in list && ElseKey(e) == b.elsePos {
      SomeFirstKey(list, b.elsePos);
      var k :| FirstKey(list, k, b.elsePos);
      GetEndIfFirst(list, k, b.elsePos);
      KeyAt(list, k, b.elsePos);
      OnlyFirst(list, k, b.elsePos);
      var c := KeyOwner(p, lo, hi, b, list[k]);
    } else {
      GetEndIfMisses(list, b.elsePos);
      NoFirst(list, b.elsePos);
    }
  }

  lemma KeyAt(list: seq<IfBlock>, k: int, key: nat)
    requires FirstKey(list, k, key)
    ensures 0 <= k < |list| && list[k] in list && ElseKey(list[k]) == key
  {}

  lemma OnlyFirst(list: seq<IfBlock>, k: int, key: nat)
    requires FirstKey(list, k, key)
    ensures forall j :: FirstKey(list, j, key) ==> j == k
  {}

  lemma NoFirst(list: seq<IfBlock>, key: nat)
    requires forall e :: e in list ==> ElseKey(e) != key
    ensures forall k :: !FirstKey(list, k, key)
  {}

  /** In particular, if every block is shorter than 256 lines, `getEndIf` of an ELSE is the ENDIF of its own block. */
  lemma GetEndIfCorrect(p: Program, lo: nat, hi: nat, b: Program)
    requires Placed(p, lo, hi) && Depth(p) <= STACK_SIZE && Count(p) <= LIST_SIZE
    requires Short(p) && Within(b, p) && b.IfElse?
    ensures GetEndIf(ScannedList(p), b.elsePos) == b.endPos
  {
    hide Placed, Entries, Depth, Count, Short;
    forall c | Within(c, p) ensures !Aliases(c, b) {
      ShortBlock(p, c);
      PlacedBlock(p, lo, hi, c);
    }
    ShortBlock(p, b);
    GetEndIfExact(p, lo, hi, b);
  }

  // ---- When the stack overruns ----

  lemma {:induction false} OverrunStays(s: State, lines: seq<Line>)
    requires s.overrun
    ensures ScanAll(s, lines).overrun
    decreases |lines|
  {
    if lines != [] {
      OverrunStays(Scan(s, lines[0]), lines[1..]);
    }
  }

  lemma OverrunsNow(s: State, i: nat)
    requires |s.stack| == STACK_SIZE
    ensures Scan(s, IfLine(i)).overrun
  {}

  lemma {:induction false} DeepOverruns(s: State, p: Program, rest: seq<Line>)
    requires |s.stack| <= STACK_SIZE < |s.stack| + Depth(p) && |s.list| + Count(p) <= LIST_SIZE
    ensures ScanAll(s, Lines(p) + rest).overrun
    decreases Size(p), 1
  {
    hide ScanAll, Scan;
    var i := p.ifPos;
    var tail := [EndifLine(p.endPos)] + (Lines(p.next) + rest);
    var second := if p.If? then tail else [ElseLine(p.elsePos)] + (Lines(p.elseBody) + tail);
    var inside := Lines(p.body) + second;
    if p.If? {
      IfLines(p, rest);
    } else {
      IfElseLines(p, rest);
    }
    ScanCons(s, IfLine(i), inside);
    if |s.stack| == STACK_SIZE {
      OverrunsNow(s, i);
      OverrunStays(Scan(s, IfLine(i)), inside);
    } else {
      ScanIfLine(s, i);
      var open := IfBlock(i, 0, 0);
      match p {
        case If(_, body, e, next) =>
          DeepToEnd(s, open, body, e, next, rest);
        case IfElse(_, body, l, elseBody, e, next) =>
          if |s.stack| + 1 + Depth(body) > STACK_SIZE {
            DeepOverruns(WithOpen(s, open), body, second);
          } else {
            ScanOpen(s, open, body, second);
            var u := WithList(s, Entries(body));
            ScanCons(WithOpen(u, open), ElseLine(l), Lines(elseBody) + tail);
            ScanElse(u, open, l);
            DeepToEnd(u, open.(elseOffset := OneByte(l - i)), elseBody, e, next, rest);
          }
      }
    }
  }

  lemma {:induction false} DeepToEnd(s: State, open: IfBlock, body: Program, e: nat, next: Program, rest: seq<Line>)
    requires |s.stack| < STACK_SIZE < |s.stack| + Max(1 + Depth(body), Depth(next))
    requires |s.list| + Count(body) + 1 + Count(next) <= LIST_SIZE
    ensures ScanAll(WithOpen(s, open), Lines(body) + ([EndifLine(e)] + (Lines(next) + rest))).overrun
    decreases Size(body) + Size(next), 0
  {
    hide ScanAll, Scan;
    var after := [EndifLine(e)] + (Lines(next) + rest);
    if |s.stack| + 1 + Depth(body) > STACK_SIZE {
      DeepOverruns(WithOpen(s, open), body, after);
    } else {
      ScanOpen(s, open, body, after);
      var t := WithList(s, Entries(body));
      ScanCons(WithOpen(t, open), EndifLine(e), Lines(next) + rest);
      ScanEndif(t, open, e);
      DeepOverruns(WithList(t, [open.(endOffset := OneByte(e - open.ifPos))]), next, rest);
    }
  }

  /** A well-nested program of at most 300 blocks overruns the stack exactly when it nests deeper than ten. */
  lemma OverrunByDepth(p: Program)
    requires Count(p) <= LIST_SIZE
    ensures ScanAll(State([], [], false), Lines(p)).overrun <==> Depth(p) > STACK_SIZE
  {
    if Depth(p) <= STACK_SIZE {
      ScannedIs(p);
    } else {
      DeepOverruns(State([], [], false), p, []);
      assert Lines(p) + [] == Lines(p);
    }
  }

  function Ifs(lines: seq<Line>): nat {
    if lines == [] then 0 else (if lines[0].IfLine? then 1 else 0) + Ifs(lines[1..])
  }

  function Endifs(lines: seq<Line>): nat {
    if lines == [] then 0 else (if lines[0].EndifLine? then 1 else 0) + Endifs(lines[1..])
  }

  /** How many blocks are open on the stack, `open` at first, if the list has room for `room` more of them. */
  function Level(open: nat, room: nat, lines: seq<Line>): int {
    open + Ifs(lines) - Min(Endifs(lines), room)
  }

  /** The level exceeds ten at some point. */
  ghost predicate Exceeds(open: nat, room: nat, lines: seq<Line>) {
    exists k :: 0 <= k <= |lines| && Level(open, room, lines[..k]) > STACK_SIZE
  }

  /** No ENDIF without an open block, if `depth` are open at first. */
  predicate Nested(depth: nat, lines: seq<Line>)
    decreases |lines|
  {
    lines == [] ||
    match lines[0]
    case IfLine(_) => Nested(depth + 1, lines[1..])
    case ElseLine(_) => Nested(depth, lines[1..])
    case EndifLine(_) => depth > 0 && Nested(depth - 1, lines[1..])
  }

  lemma {:induction false} LinesNested(p: Program, depth: nat, rest: seq<Line>)
    requires Nested(depth, rest)
    ensures Nested(depth, Lines(p) + rest)
    decreases p
  {
    match p {
      case Done =>
        assert Lines(p) + rest == rest;
      case If(i, body, e, next) =>
        LinesNested(next, depth, rest);
        NestedCons(depth + 1, EndifLine(e), Lines(next) + rest);
        LinesNested(body, depth + 1, [EndifLine(e)] + (Lines(next) + rest));
        IfLines(p, rest);
        NestedCons(depth, IfLine(i), Lines(body) + ([EndifLine(e)] + (Lines(next) + rest)));
      case IfElse(i, body, l, elseBody, e, next) =>
        LinesNested(next, depth, rest);
        var after := [EndifLine(e)] + (Lines(next) + rest);
        NestedCons(depth + 1, EndifLine(e), Lines(next) + rest);
        LinesNested(elseBody, depth + 1, after);
        NestedCons(depth + 1, ElseLine(l), Lines(elseBody) + after);
        LinesNested(body, depth + 1, [ElseLine(l)] + (Lines(elseBody) + after));
        IfElseLines(p, rest);
        NestedCons(depth, IfLine(i), Lines(body) + ([ElseLine(l)] + (Lines(elseBody) + after)));
    }
  }

  lemma NestedCons(depth: nat, line: Line, rest: seq<Line>)
    ensures Nested(depth, [line] + rest) <==>
            match line
            case IfLine(_) => Nested(depth + 1, rest)
            case ElseLine(_) => Nested(depth, rest)
            case EndifLine(_) => depth > 0 && Nested(depth - 1, rest)
  {
    assert ([line] + rest)[1..] == rest;
  }

  lemma LevelCons(open: nat, room: nat, line: Line, rest: seq<Line>)
    ensures Level(open, room, [line] + rest) ==
            match line
            case IfLine(_) => Level(open + 1, room, rest)
            case ElseLine(_) => Level(open, room, rest)
            case EndifLine(_) => if room > 0 then Level(open, room - 1, rest) - 1 else Level(open, room, rest)
  {
    assert ([line] + rest)[1..] == rest;
  }

  /** The level over the rest of the lines, from the level after the first. */
  lemma ExceedsNext(open: nat, room: nat, open': nat, room': nat, lines: seq<Line>)
    requires lines != [] && open <= STACK_SIZE
    requires forall rest :: Level(open, room, [lines[0]] + rest) == Level(open', room', rest)
    ensures Exceeds(open, room, lines) <==> Exceeds(open', room', lines[1..])
  {
    hide Level;
    var tail := lines[1..];
    if Exceeds(open, room, lines) {
      var k :| 0 <= k <= |lines| && Level(open, room, lines[..k]) > STACK_SIZE;
      LevelNothing(open, room);
      assert k > 0;
      var rest := tail[..k - 1];
      assert lines[..k] == [lines[0]] + rest;
      assert Level(open, room, [lines[0]] + rest) == Level(open', room', rest);
      assert 0 <= k - 1 <= |tail|;
    }
    if Exceeds(open', room', tail) {
      var k :| 0 <= k <= |tail| && Level(open', room', tail[..k]) > STACK_SIZE;
      var rest := tail[..k];
      assert lines[..k + 1] == [lines[0]] + rest;
      assert Level(open, room, [lines[0]] + rest) == Level(open', room', rest);
      assert 0 <= k + 1 <= |lines|;
    }
  }

  lemma LevelNothing(open: nat, room: nat)
    ensures Level(open, room, []) == open
  {}

  lemma {:induction false} ScanLevels(s: State, depth: nat, lines: seq<Line>)
    requires !s.overrun && |s.stack| <= STACK_SIZE && |s.list| <= LIST_SIZE
    requires depth <= |s.stack| && Nested(depth, lines)
    ensures ScanAll(s, lines).overrun <==> Exceeds(|s.stack|, LIST_SIZE - |s.list|, lines)
    decreases |lines|
  {
    var open, room := |s.stack|, LIST_SIZE - |s.list|;
    if lines == [] {
      LevelNothing(open, room);
      assert forall k :: 0 <= k <= |lines| ==> lines[..k] == [];
    } else {
      var line, tail, t := lines[0], lines[1..], Scan(s, lines[0]);
      forall rest ensures line.IfLine? ==> Level(open, room, [line] + rest) == Level(open + 1, room, rest) {
        LevelCons(open, room, line, rest);
      }
      if line.IfLine? && open == STACK_SIZE {
        OverrunStays(t, tail);
        LevelCons(open, room, line, []);
        LevelNothing(open + 1, room);
        assert lines[..1] == [line] + [];
      } else {
        ScanLevels(t, if line.IfLine? then depth + 1 else if line.EndifLine? then depth - 1 else depth, tail);
        forall rest ensures Level(open, room, [line] + rest) == Level(|t.stack|, LIST_SIZE - |t.list|, rest) {
          LevelCons(open, room, line, rest);
        }
        ExceedsNext(open, room, |t.stack|, LIST_SIZE - |t.list|, lines);
      }
    }
  }

  /** Scanning a well-nested program writes behind the ten stack slots exactly if in front of some line more than
      ten blocks are open or, once the list is full, were never taken off the stack: the IFs so far exceed the
      ENDIFs so far, of which no more than 300 count, by more than ten. */
  lemma OverrunExactly(p: Program)
    ensures ScanAll(State([], [], false), Lines(p)).overrun <==>
            exists k :: 0 <= k <= |Lines(p)| && Ifs(Lines(p)[..k]) - Min(Endifs(Lines(p)[..k]), LIST_SIZE) > STACK_SIZE
  {
    var lines := Lines(p);
    LinesNested(p, 0, []);
    assert lines + [] == lines;
    ScanLevels(State([], [], false), 0, lines);
    assert forall k :: 0 <= k <= |lines| ==>
             Level(0, LIST_SIZE, lines[..k]) == Ifs(lines[..k]) - Min(Endifs(lines[..k]), LIST_SIZE);
  }

  /** n IF/ENDIF pairs one after the other. */
  function Pairs(n: nat, pos: nat): Program {
    if n == 0 then Done else If(pos, Done, pos + 1, Pairs(n - 1, pos + 2))
  }

  /** Without any nesting, 310 pairs are scanned safely and 311 overrun the stack. */
  lemma PairsOverrun(n: nat, pos: nat)
    ensures Count(Pairs(n, pos)) == n && Depth(Pairs(n, pos)) <= 1
    ensures ScanAll(State([], [], false), Lines(Pairs(n, pos))).overrun <==> n > 310
  {
    PairsScan(State([], [], false), n, pos);
    PairsShape(n, pos);
  }

  lemma {:induction false} PairsShape(n: nat, pos: nat)
    ensures Count(Pairs(n, pos)) == n && Depth(Pairs(n, pos)) <= 1
    decreases n
  {
    if n > 0 {
      PairsShape(n - 1, pos + 2);
    }
  }

  lemma {:induction false} PairsScan(s: State, n: nat, pos: nat)
    requires !s.overrun && |s.stack| <= STACK_SIZE && |s.list| <= LIST_SIZE && (|s.list| < LIST_SIZE ==> s.stack == [])
    ensures ScanAll(s, Lines(Pairs(n, pos))).overrun <==> n > LIST_SIZE - |s.list| + STACK_SIZE - |s.stack|
    decreases n
  {
    hide Scan, ScanAll, Pairs, Lines;
    PairsLines(n, pos);
    if n == 0 {
      ScanNothing(s);
    } else {
      var rest := Lines(Pairs(n - 1, pos + 2));
      var t := Scan(s, IfLine(pos));
      ScanCons(s, IfLine(pos), [EndifLine(pos + 1)] + rest);
      if |s.stack| == STACK_SIZE {
        OverrunsNow(s, pos);
        OverrunStays(t, [EndifLine(pos + 1)] + rest);
      } else {
        ScanCons(t, EndifLine(pos + 1), rest);
        PairScan(s, pos);
        PairsScan(Scan(t, EndifLine(pos + 1)), n - 1, pos + 2);
      }
    }
  }

  lemma ScanNothing(s: State)
    ensures ScanAll(s, []) == s
  {}

  lemma PairsLines(n: nat, pos: nat)
    ensures Lines(Pairs(n, pos)) ==
            if n == 0 then [] else [IfLine(pos)] + ([EndifLine(pos + 1)] + Lines(Pairs(n - 1, pos + 2)))
  {
    if n > 0 {
      assert Lines(Done) == [];
      assert [] + ([EndifLine(pos + 1)] + Lines(Pairs(n - 1, pos + 2)))
          == [EndifLine(pos + 1)] + Lines(Pairs(n - 1, pos + 2));
    }
  }

  lemma PairScan(s: State, pos: nat)
    requires |s.stack| < STACK_SIZE && |s.list| <= LIST_SIZE
    ensures var t := Scan(Scan(s, IfLine(pos)), EndifLine(pos + 1));
            t.overrun == s.overrun &&
            if |s.list| < LIST_SIZE then t.stack == s.stack && |t.list| == |s.list| + 1
            else |t.stack| == |s.stack| + 1 && t.list == s.list
  {}

  // ---- The class ----

  class IfBlockList {
    var ptr: int
    const stack: array<IfBlock>
    var length: nat
    const temp: array<IfBlock>
    var list: array<IfBlock>

    ghost predicate Valid()
      reads this
    {
      && stack.Length == STACK_SIZE && temp.Length == LIST_SIZE && stack != temp
      && list != stack && list != temp
      && -1 <= ptr < STACK_SIZE && length <= LIST_SIZE
    }

    /** The scan as a value; `overrun` cannot have happened yet. */
    ghost function Scanned(): State
      requires Valid()
      reads this, stack, temp
    {
      State(stack[..ptr + 1], temp[..length], false)
    }

    constructor ()
      ensures Valid() && Scanned() == State([], [], false) && fresh(stack) && fresh(temp)
    {
      ptr, length := -1, 0;
      stack := new IfBlock[STACK_SIZE](_ => IfBlock(0, 0, 0));
      temp := new IfBlock[LIST_SIZE](_ => IfBlock(0, 0, 0));
      list := new IfBlock[0];
    }

    /** Not to be called with all ten slots taken: that is the call that writes behind them. */
    method SetIf(pos: nat)
      requires Valid() && ptr + 1 < STACK_SIZE
      modifies this`ptr, stack
      ensures Valid() && Scanned() == Scan(old(Scanned()), IfLine(pos))
    {
      if ptr >= 10 {
        return;
      }
      ptr := ptr + 1;
      stack[ptr] := IfBlock(pos, 0, 0);
    }

    method SetElse(pos: nat)
      requires Valid()
      modifies stack
      ensures Valid() && Scanned() == Scan(old(Scanned()), ElseLine(pos))
    {
      if ptr < 0 {
        return;
      }
      stack[ptr] := stack[ptr].(elseOffset := OneByte(pos - stack[ptr].ifPos));
    }

    method SetEndif(pos: nat)
      requires Valid()
      modifies this`ptr, this`length, stack, temp
      ensures Valid() && Scanned() == Scan(old(Scanned()), EndifLine(pos))
    {
      if ptr < 0 {
        return;
      }
      if length >= LIST_SIZE {
        return;
      }
      stack[ptr] := stack[ptr].(endOffset := OneByte(pos - stack[ptr].ifPos));
      temp[length] := stack[ptr];
      length := length + 1;
      ptr := ptr - 1;
    }

    /** Copies the scanned blocks to the list; true if every IF was closed. */
    method Check() returns (closed: bool)
      requires Valid()
      modifies this`list
      ensures Valid() && fresh(list) && list[..] == Scanned().list
      ensures closed <==> Scanned().stack == []
    {
      list := new IfBlock[length](i requires 0 <= i < length && length <= temp.Length reads this, temp => temp[i]);
      closed := ptr == -1;
    }

    method GetElsePos(ifPos: nat) returns (pos: nat)
      ensures pos == GetElse(list[..], ifPos)
    {
      var i := 0;
      while i < list.Length
        invariant i <= list.Length
        invariant GetElse(list[..], ifPos) == GetElse(list[i..], ifPos)
      {
        if list[i].ifPos == ifPos {
          if list[i].elseOffset > 0 {
            return list[i].elseOffset + list[i].ifPos;
          } else {
            return list[i].endOffset + list[i].ifPos;
          }
        }
        assert list[i..][1..] == list[i + 1..];
        i := i + 1;
      }
      return 0;
    }

    method GetEndIfPos(elsePos: nat) returns (pos: nat)
      ensures pos == GetEndIf(list[..], elsePos)
    {
      var i := 0;
      while i < list.Length
        invariant i <= list.Length
        invariant GetEndIf(list[..], elsePos) == GetEndIf(list[i..], elsePos)
      {
        if list[i].elseOffset + list[i].ifPos == elsePos {
          return list[i].endOffset + list[i].ifPos;
        }
        assert list[i..][1..] == list[i + 1..];
        i := i + 1;
      }
      return 0;
    }
  }
}
