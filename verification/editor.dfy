/** The instruction-stream editor (`ILHelper`): an instruction list addressed
    through a stack of cursor positions. This module holds what the two
    versions of the editor share; `LegacyEditor` and `ModernEditor` hold what
    differs between them.

    Every fluent operation is a pure function from a session to a `Step`:
    either the call returned (`Done`) or it threw (`Threw`), and in both cases
    the session state the call left behind. */
module Editor {
  import opened Outcomes
  import opened Instructions

  /** An edit session. The top of the index stack, `CurrentIndex`, is the
      LAST element of `stack`. `buffer` is the legacy editor's copy buffer
      (`None` until the first copy) and `locals` the newer editor's table of
      locals; each version leaves the other's field alone. */
  datatype Session = Session(
    instrs: seq<Instr>,
    stack: seq<int>,
    buffer: Option<seq<Instr>>,
    locals: map<int, LocalVar>)

  /** The outcome of a fluent call. */
  datatype Step = Done(s: Session) | Threw(e: Error, s: Session)

  /** The outcome of a call that also hands back a value. */
  datatype Fetch<T> = Fetched(value: T, s: Session) | FetchThrew(e: Error, s: Session)

  predicate HasCursor(s: Session)
  {
    |s.stack| > 0
  }

  /** `CurrentIndex`. */
  function Top(s: Session): int
    requires HasCursor(s)
  {
    s.stack[|s.stack| - 1]
  }

  function Push(s: Session, i: int): Session
  {
    s.(stack := s.stack + [i])
  }

  /** The cursor addresses an existing instruction. */
  predicate OnInstr(s: Session)
  {
    HasCursor(s) && 0 <= Top(s) < |s.instrs|
  }

  /** The two lists have the same length and differ at most at index `c`. */
  predicate ChangedOnlyAt(a: seq<Instr>, b: seq<Instr>, c: int)
  {
    |a| == |b| && forall i :: 0 <= i < |a| && i != c ==> a[i] == b[i]
  }

  /** The labels-stripped copy of a block of instructions. */
  function StripAll(xs: seq<Instr>): (r: seq<Instr>)
    ensures |r| == |xs|
    ensures forall i :: 0 <= i < |xs| ==>
              r[i].labels == [] && r[i].opcode == xs[i].opcode && r[i].operand == xs[i].operand
  {
    seq(|xs|, i requires 0 <= i < |xs| => xs[i].(labels := []))
  }

  /** `b` is a copy of `src`, with every label dropped when `strip` is set. */
  predicate CopyOf(b: seq<Instr>, src: seq<Instr>, strip: bool)
  {
    |b| == |src| &&
    forall i :: 0 <= i < |b| ==>
      b[i].opcode == src[i].opcode && b[i].operand == src[i].operand &&
      b[i].labels == if strip then [] else src[i].labels
  }

  function CopyBlock(src: seq<Instr>, strip: bool): (r: seq<Instr>)
    ensures CopyOf(r, src, strip)
  {
    if strip then StripAll(src) else src
  }

  // ---------------------------------------------------------------- search

  /** `FindFirst`: push the least index where `p` occurs. */
  function FindFirst(s: Session, p: Pattern): (r: Step)
    ensures r.Done? <==> exists i :: MatchesAt(s.instrs, p, i)
    ensures r.Done? ==> HasCursor(r.s) && r.s == Push(s, Top(r.s)) &&
                        FirstMatchFrom(s.instrs, p, 0, Top(r.s))
    ensures r.Threw? ==> r == Threw(PatternNotFound, s)
  {
    var i := IndexOf(s.instrs, p, 0);
    if i < 0 then Threw(PatternNotFound, s) else Done(Push(s, i))
  }

  /** `FindNext` (alias `AdvanceUntil`): push the least index after the cursor
      where `p` occurs. */
  function FindNext(s: Session, p: Pattern): (r: Step)
    ensures !HasCursor(s) ==> r == Threw(NoCursor, s)
    ensures HasCursor(s) ==>
              (r.Done? <==> exists i :: Top(s) < i && MatchesAt(s.instrs, p, i))
    ensures r.Done? ==> HasCursor(s) && HasCursor(r.s) && r.s == Push(s, Top(r.s)) &&
                        FirstMatchFrom(s.instrs, p, Top(s) + 1, Top(r.s))
    ensures r.Threw? ==> r.s == s
  {
    if !HasCursor(s) then Threw(NoCursor, s)
    else
      var i := IndexOf(s.instrs, p, Top(s) + 1);
      if i < 0 then Threw(PatternNotFound, s) else Done(Push(s, i))
  }

  /** `FindLast` with the not-found guard the two versions of the source
      intend but do not achieve (see the findings in `LegacyEditor` and
      `ModernEditor`): push the greatest index where `p` occurs. */
  function FindLast(s: Session, p: Pattern): (r: Step)
    ensures r.Done? <==> exists i :: MatchesAt(s.instrs, p, i)
    ensures r.Done? ==> HasCursor(r.s) && r.s == Push(s, Top(r.s)) &&
                        LastMatchBefore(s.instrs, p, |s.instrs|, Top(r.s))
    ensures r.Threw? ==> r == Threw(PatternNotFound, s)
  {
    var i := LastIndexOf(s.instrs, p, |s.instrs|);
    if i < 0 then Threw(PatternNotFound, s) else Done(Push(s, i))
  }

  /** `FindPrevious` with the intended not-found guard: push the start of the
      nearest occurrence of `p` that ends strictly before the cursor. */
  function FindPrevious(s: Session, p: Pattern): (r: Step)
    ensures !HasCursor(s) ==> r == Threw(NoCursor, s)
    ensures HasCursor(s) ==>
              (r.Done? <==> exists i :: i + |p| <= Top(s) && MatchesAt(s.instrs, p, i))
    ensures r.Done? ==> HasCursor(s) && HasCursor(r.s) && r.s == Push(s, Top(r.s)) &&
                        LastMatchBefore(s.instrs, p, Top(s), Top(r.s))
    ensures r.Threw? ==> r.s == s
  {
    if !HasCursor(s) then Threw(NoCursor, s)
    else
      var i := LastIndexOf(s.instrs, p, Top(s));
      if i < 0 then Threw(PatternNotFound, s) else Done(Push(s, i))
  }

  /** `FindLabel`: push the least index whose instruction carries `l`,
      searching the whole list, or only after the cursor when `fromCurrent`. */
  function FindLabel(s: Session, l: Label, fromCurrent: bool): (r: Step)
    ensures fromCurrent && !HasCursor(s) ==> r == Threw(NoCursor, s)
    ensures !fromCurrent ==> (r.Done? <==> exists i :: HasLabel(s.instrs, l, i))
    ensures fromCurrent && HasCursor(s) ==>
              (r.Done? <==> exists i :: Top(s) < i && HasLabel(s.instrs, l, i))
    ensures r.Done? ==> HasCursor(r.s) && r.s == Push(s, Top(r.s)) && HasLabel(s.instrs, l, Top(r.s))
    ensures r.Done? && !fromCurrent ==> forall j :: 0 <= j < Top(r.s) ==> !HasLabel(s.instrs, l, j)
    ensures r.Done? && fromCurrent ==>
              HasCursor(s) && Top(s) < Top(r.s) &&
              forall j :: Top(s) < j < Top(r.s) ==> !HasLabel(s.instrs, l, j)
    ensures r.Threw? ==> r.s == s
  {
    if fromCurrent && !HasCursor(s) then Threw(NoCursor, s)
    else
      var i := IndexOfLabel(s.instrs, l, if fromCurrent then Top(s) + 1 else 0);
      if i < 0 then Threw(LabelNotFound, s) else Done(Push(s, i))
  }

  // ------------------------------------------------------------ navigation

  /** `Advance(steps)`: push `CurrentIndex + steps` when it addresses an
      instruction; otherwise throw and leave everything as it was. */
  function Advance(s: Session, steps: int): (r: Step)
    ensures r.Done? <==> HasCursor(s) && 0 <= Top(s) + steps < |s.instrs|
    ensures r.Done? ==> r.s == Push(s, Top(s) + steps)
    ensures r.Threw? ==> r.s == s
    ensures r.Threw? && HasCursor(s) ==> r.e == OutOfRange || (r.e == EmptyList && |s.instrs| == 0)
  {
    if !HasCursor(s) then Threw(NoCursor, s)
    else if Top(s) + steps < 0 then Threw(OutOfRange, s)
    else if |s.instrs| == 0 then Threw(EmptyList, s)
    else if Top(s) + steps > |s.instrs| - 1 then Threw(OutOfRange, s)
    else Done(Push(s, Top(s) + steps))
  }

  /** `Retreat(steps)`, which is `Advance(-steps)`. */
  function Retreat(s: Session, steps: int): (r: Step)
    ensures r.Done? <==> HasCursor(s) && 0 <= Top(s) - steps < |s.instrs|
    ensures r.Done? ==> r.s == Push(s, Top(s) - steps)
    ensures r.Threw? ==> r.s == s
  {
    Advance(s, -steps)
  }

  /** `GoTo(index)`: push `index` when it addresses an instruction. */
  function GoTo(s: Session, index: int): (r: Step)
    ensures r.Done? <==> 0 <= index < |s.instrs|
    ensures r.Done? ==> r.s == Push(s, index)
    ensures r.Threw? ==> r.s == s
    ensures r.Threw? ==> r.e == OutOfRange || (r.e == EmptyList && |s.instrs| == 0)
  {
    if index < 0 then Threw(OutOfRange, s)
    else if |s.instrs| == 0 then Threw(EmptyList, s)
    else if index > |s.instrs| - 1 then Threw(OutOfRange, s)
    else Done(Push(s, index))
  }

  /** `Return(count)`: pop `count` entries one at a time. Popping more entries
      than the stack holds empties it and only then throws. */
  function Return(s: Session, count: int): (r: Step)
    ensures count <= |s.stack| ==>
              r == Done(s.(stack := if count <= 0 then s.stack else s.stack[..|s.stack| - count]))
    ensures count > |s.stack| ==> r == Threw(EmptyStack, s.(stack := []))
    decreases count
  {
    if count <= 0 then Done(s)
    else if |s.stack| == 0 then Threw(EmptyStack, s)
    else Return(s.(stack := s.stack[..|s.stack| - 1]), count - 1)
  }

  // -------------------------------------------------------------- mutation

  /** `t` is `s` with `block` spliced in at the cursor and the index just
      past the block pushed, so the cursor stays on the instruction it was on;
      the buffer and the locals are untouched. */
  predicate InsertedAt(s: Session, block: seq<Instr>, t: Session)
  {
    HasCursor(s) && 0 <= Top(s) <= |s.instrs| &&
    t.instrs == s.instrs[..Top(s)] + block + s.instrs[Top(s)..] &&
    t.stack == s.stack + [Top(s) + |block|] && t.buffer == s.buffer && t.locals == s.locals
  }

  /** `Insert` / `InsertInstructions`: splice `xs` in before the cursor and
      push `CurrentIndex + |xs|`, so that the new top addresses the instruction
      the cursor addressed before. Older stack entries are not shifted. */
  function Insert(s: Session, xs: seq<Instr>): (r: Step)
    ensures r.Done? <==> HasCursor(s) && 0 <= Top(s) <= |s.instrs|
    ensures r.Threw? ==> r.s == s
    ensures r.Done? ==> r.s.stack == s.stack + [Top(s) + |xs|] && r.s.buffer == s.buffer &&
                        r.s.locals == s.locals && |r.s.instrs| == |s.instrs| + |xs|
    ensures r.Done? ==> r.s.instrs[..Top(s)] == s.instrs[..Top(s)] &&
                        r.s.instrs[Top(s)..Top(r.s)] == xs &&
                        r.s.instrs[Top(r.s)..] == s.instrs[Top(s)..]
  {
    if !HasCursor(s) then Threw(NoCursor, s)
    else if !(0 <= Top(s) <= |s.instrs|) then Threw(BadIndex, s)
    else
      var c := Top(s);
      Done(s.(instrs := s.instrs[..c] + xs + s.instrs[c..], stack := s.stack + [c + |xs|]))
  }

  /** A successful `Insert` is exactly the splice `InsertedAt` describes. */
  lemma InsertIsSplice(s: Session, xs: seq<Instr>)
    ensures Insert(s, xs).Done? ==> InsertedAt(s, xs, Insert(s, xs).s)
  {
  }

  /** `Remove` / `RemoveInstructions(count)`: delete `[CurrentIndex,
      CurrentIndex + count)`, provided that range stops short of the last
      instruction. The stack is left alone. */
  function Remove(s: Session, count: int): (r: Step)
    ensures r.Done? <==> HasCursor(s) && 0 <= Top(s) && 0 <= count && Top(s) + count < |s.instrs|
    ensures r.Threw? ==> r.s == s
    ensures r.Done? ==> r.s.buffer == s.buffer && r.s.locals == s.locals
    ensures r.Done? ==> r.s.stack == s.stack && |r.s.instrs| == |s.instrs| - count
    ensures r.Done? ==> forall i :: 0 <= i < |r.s.instrs| ==>
                          r.s.instrs[i] == if i < Top(s) then s.instrs[i] else s.instrs[i + count]
    ensures r.Done? ==> r.s.instrs[|r.s.instrs| - 1] == s.instrs[|s.instrs| - 1]
  {
    if !HasCursor(s) then Threw(NoCursor, s)
    else if |s.instrs| == 0 then Threw(EmptyList, s)
    else if Top(s) + count > |s.instrs| - 1 then Threw(OutOfRange, s)
    else if Top(s) < 0 || count < 0 then Threw(BadRange, s)
    else Done(s.(instrs := s.instrs[..Top(s)] + s.instrs[Top(s) + count..]))
  }

  /** `RemoveUntil` / `RemoveInstructionsUntil`: find the next occurrence of
      `p` (push), pop it again, and delete from the cursor up to and including
      the first instruction of that occurrence. */
  function RemoveUntil(s: Session, p: Pattern): (r: Step)
    ensures HasCursor(s) && 0 <= Top(s) && |p| > 0 ==>
              (r.Done? <==> exists i :: Top(s) < i && MatchesAt(s.instrs, p, i))
    ensures r.Threw? ==> r.s == s
    ensures r.Done? ==> r.s.buffer == s.buffer && r.s.locals == s.locals
    ensures r.Done? ==>
              HasCursor(s) && r.s.stack == s.stack && r.s.buffer == s.buffer &&
              var m := Top(s) + |s.instrs| - |r.s.instrs| - 1;
              0 <= Top(s) < m < |s.instrs| &&
              FirstMatchFrom(s.instrs, p, Top(s) + 1, m) &&
              r.s.instrs == s.instrs[..Top(s)] + s.instrs[m + 1..]
  {
    match FindNext(s, p)
    case Threw(e, _) => Threw(e, s)
    case Done(t) =>
      var c, m := Top(s), Top(t);
      if c < 0 || m + 1 > |s.instrs| then Threw(BadRange, s)
      else Done(s.(instrs := s.instrs[..c] + s.instrs[m + 1..]))
  }

  /** Apply `f` to the instruction at the cursor (`Instructions[CurrentIndex]`). */
  function UpdateAt(s: Session, f: Instr -> Instr): (r: Step)
    ensures r.Done? <==> OnInstr(s)
    ensures r.Threw? ==> r.s == s && r.e == (if HasCursor(s) then BadIndex else NoCursor)
    ensures r.Done? ==> r.s == s.(instrs := s.instrs[Top(s) := f(s.instrs[Top(s)])])
  {
    if !HasCursor(s) then Threw(NoCursor, s)
    else if !(0 <= Top(s) < |s.instrs|) then Threw(BadIndex, s)
    else Done(s.(instrs := s.instrs[Top(s) := f(s.instrs[Top(s)])]))
  }

  /** `ReplaceInstructionWith(x, preserveLabels)` (and the legacy `ReplaceWith(x)`,
      which is the `preserveLabels == false` case): overwrite the cursor slot,
      carrying the old labels over when asked. */
  function Replace(s: Session, x: Instr, preserveLabels: bool): (r: Step)
    ensures r.Done? <==> OnInstr(s)
    ensures r.Threw? ==> r.s == s
    ensures r.Done? ==> r.s == s.(instrs := r.s.instrs)
    ensures r.Done? ==> r.s.stack == s.stack && ChangedOnlyAt(s.instrs, r.s.instrs, Top(s))
    ensures r.Done? ==> r.s.instrs[Top(s)].opcode == x.opcode &&
                        r.s.instrs[Top(s)].operand == x.operand &&
                        r.s.instrs[Top(s)].labels ==
                          if preserveLabels then s.instrs[Top(s)].labels else x.labels
  {
    UpdateAt(s, (y: Instr) => if preserveLabels then x.(labels := y.labels) else x)
  }

  /** `AddLabels`: append labels to those of the cursor slot. */
  function AddLabels(s: Session, ls: seq<Label>): (r: Step)
    ensures r.Done? <==> OnInstr(s)
    ensures r.Threw? ==> r.s == s
    ensures r.Done? ==> r.s == s.(instrs := r.s.instrs)
    ensures r.Done? ==> r.s.stack == s.stack && ChangedOnlyAt(s.instrs, r.s.instrs, Top(s))
    ensures r.Done? ==> var before, after := s.instrs[Top(s)], r.s.instrs[Top(s)];
                        after.opcode == before.opcode && after.operand == before.operand &&
                        after.labels == before.labels + ls &&
                        multiset(after.labels) == multiset(before.labels) + multiset(ls)
  {
    UpdateAt(s, (x: Instr) => x.(labels := x.labels + ls))
  }

  /** `SetLabels`: replace the labels of the cursor slot. */
  function SetLabels(s: Session, ls: seq<Label>): (r: Step)
    ensures r.Done? <==> OnInstr(s)
    ensures r.Threw? ==> r.s == s
    ensures r.Done? ==> r.s == s.(instrs := r.s.instrs)
    ensures r.Done? ==> r.s.stack == s.stack && ChangedOnlyAt(s.instrs, r.s.instrs, Top(s))
    ensures r.Done? ==> var before, after := s.instrs[Top(s)], r.s.instrs[Top(s)];
                        after.opcode == before.opcode && after.operand == before.operand &&
                        after.labels == ls
  {
    UpdateAt(s, (x: Instr) => x.(labels := ls))
  }

  /** Clear the labels of the cursor slot: the legacy `StripLabels()` and the
      newer `RemoveLabels()`. */
  function ClearLabels(s: Session): (r: Step)
    ensures r.Done? <==> OnInstr(s)
    ensures r.Threw? ==> r.s == s
    ensures r.Done? ==> r.s == s.(instrs := r.s.instrs)
    ensures r.Done? ==> r.s.stack == s.stack && ChangedOnlyAt(s.instrs, r.s.instrs, Top(s))
    ensures r.Done? ==> forall l :: !HasLabel(r.s.instrs, l, Top(s))
    ensures r.Done? ==> r.s.instrs[Top(s)].opcode == s.instrs[Top(s)].opcode &&
                        r.s.instrs[Top(s)].operand == s.instrs[Top(s)].operand
  {
    UpdateAt(s, (x: Instr) => x.(labels := []))
  }

  /** `GetLabels`. */
  function GetLabels(s: Session): (r: Result<seq<Label>, Error>)
    ensures r.Ok? <==> OnInstr(s)
    ensures r.Ok? ==> forall l :: l in r.value <==> HasLabel(s.instrs, l, Top(s))
    ensures r.Ok? ==> r.value == s.instrs[Top(s)].labels
  {
    if !HasCursor(s) then Err(NoCursor)
    else if !(0 <= Top(s) < |s.instrs|) then Err(BadIndex)
    else Ok(s.instrs[Top(s)].labels)
  }

  /** `GetOpCode`. */
  function GetOpcode(s: Session): (r: Result<Opcode, Error>)
    ensures r.Ok? <==> OnInstr(s)
  {
    if !HasCursor(s) then Err(NoCursor)
    else if !(0 <= Top(s) < |s.instrs|) then Err(BadIndex)
    else Ok(s.instrs[Top(s)].opcode)
  }

  /** `SetOpCode`: change only the opcode of the cursor slot. */
  function SetOpcode(s: Session, op: Opcode): (r: Step)
    ensures r.Done? <==> OnInstr(s)
    ensures r.Threw? ==> r.s == s
    ensures r.Done? ==> r.s == s.(instrs := r.s.instrs)
    ensures r.Done? ==> r.s.stack == s.stack && ChangedOnlyAt(s.instrs, r.s.instrs, Top(s))
    ensures r.Done? ==> r.s.instrs[Top(s)] == s.instrs[Top(s)].(opcode := op)
    ensures r.Done? ==> GetOpcode(r.s) == Ok(op)
  {
    UpdateAt(s, (x: Instr) => x.(opcode := op))
  }

  /** `GetOperand`. */
  function GetOperand(s: Session): (r: Result<Operand, Error>)
    ensures r.Ok? <==> OnInstr(s)
  {
    if !HasCursor(s) then Err(NoCursor)
    else if !(0 <= Top(s) < |s.instrs|) then Err(BadIndex)
    else Ok(s.instrs[Top(s)].operand)
  }

  /** `SetOperand`: change only the operand of the cursor slot. */
  function SetOperand(s: Session, v: Operand): (r: Step)
    ensures r.Done? <==> OnInstr(s)
    ensures r.Threw? ==> r.s == s
    ensures r.Done? ==> r.s == s.(instrs := r.s.instrs)
    ensures r.Done? ==> r.s.stack == s.stack && ChangedOnlyAt(s.instrs, r.s.instrs, Top(s))
    ensures r.Done? ==> r.s.instrs[Top(s)] == s.instrs[Top(s)].(operand := v)
    ensures r.Done? ==> GetOperand(r.s) == Ok(v)
  {
    UpdateAt(s, (x: Instr) => x.(operand := v))
  }

  // ------------------------------------------------------------- lifecycle

  /** `Clear`: empty the list and the stack. */
  function Clear(s: Session): (r: Session)
    ensures r.instrs == [] && r.stack == [] && !HasCursor(r)
    ensures r.buffer == s.buffer && r.locals == s.locals
  {
    s.(instrs := [], stack := [])
  }

  /** `Flush`: hand back the current list and clear the session. */
  function Flush(s: Session): (r: (seq<Instr>, Session))
    ensures r.0 == s.instrs
    ensures r.1 == Clear(s)
  {
    (s.instrs, Clear(s))
  }

  // ---------------------------------------------------------------- lemmas

  /** A successful navigation is undone by `Return(1)`. */
  lemma NavigationReturns(s: Session, p: Pattern, steps: int, index: int)
    ensures FindFirst(s, p).Done? ==> Return(FindFirst(s, p).s, 1) == Done(s)
    ensures FindNext(s, p).Done? ==> Return(FindNext(s, p).s, 1) == Done(s)
    ensures FindLast(s, p).Done? ==> Return(FindLast(s, p).s, 1) == Done(s)
    ensures FindPrevious(s, p).Done? ==> Return(FindPrevious(s, p).s, 1) == Done(s)
    ensures Advance(s, steps).Done? ==> Return(Advance(s, steps).s, 1) == Done(s)
    ensures GoTo(s, index).Done? ==> Return(GoTo(s, index).s, 1) == Done(s)
  {
    assert forall t: Session, i :: Push(t, i).stack[..|Push(t, i).stack| - 1] == t.stack;
  }

  /** Insertion round trip: inserting a block at the cursor, stepping back
      over it and removing it restores the instruction list. The step back is
      needed because the cursor is left after the block. */
  lemma {:induction false} InsertRetreatRemove(s: Session, xs: seq<Instr>)
    requires OnInstr(s)
    ensures Insert(s, xs).Done?
    ensures Retreat(Insert(s, xs).s, |xs|).Done?
    ensures Remove(Retreat(Insert(s, xs).s, |xs|).s, |xs|).Done?
    ensures Remove(Retreat(Insert(s, xs).s, |xs|).s, |xs|).s.instrs == s.instrs
  {
    var c := Top(s);
    var a := Insert(s, xs).s;
    InsertThenRetreat(s, xs);
    RemoveIsCut(Push(a, c), |xs|);
    assert a.instrs[..c] == s.instrs[..c];
    assert a.instrs[c + |xs|..] == s.instrs[c..];
    SplitAt(s.instrs, c);
  }

  lemma SplitAt<T>(xs: seq<T>, c: int)
    requires 0 <= c <= |xs|
    ensures xs[..c] + xs[c..] == xs
  {
  }

  lemma InsertThenRetreat(s: Session, xs: seq<Instr>)
    requires OnInstr(s)
    ensures Insert(s, xs).Done?
    ensures Retreat(Insert(s, xs).s, |xs|) == Done(Push(Insert(s, xs).s, Top(s)))
  {
  }

  lemma RemoveIsCut(s: Session, count: int)
    ensures Remove(s, count).Done? ==>
              Remove(s, count).s.instrs == s.instrs[..Top(s)] + s.instrs[Top(s) + count..]
  {
  }
}
