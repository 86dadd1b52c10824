/** The newer editor (ImmersiveValley/Common/Harmony/ILHelper.cs): built once
    per method, with a table of the method's locals, label-aware insertion and
    appending, copies handed back to the caller, and a pattern-driven loop. */
module ModernEditor {
  import opened Outcomes
  import opened Instructions
  import opened Editor

  // ---------------------------------------------------------- construction

  /** The opcodes `IsLdloc` and `IsStloc` recognise: every load, address-load
      and store of a local, long and short forms alike. */
  predicate IsLocalAccess(op: Opcode)
  {
    op == Ldloc || op == Ldloca || op == Stloc
  }

  /** Instruction `i` accesses a local and names its slot object. */
  predicate NamesLocal(list: seq<Instr>, i: int)
  {
    0 <= i < |list| && IsLocalAccess(list[i].opcode) && list[i].operand.LocalOperand?
  }

  /** Instruction `i` accesses a local through an operand that is neither
      absent nor a slot object, which the cast to `LocalBuilder` rejects. */
  predicate BadLocalOperand(list: seq<Instr>, i: int)
  {
    0 <= i < |list| && IsLocalAccess(list[i].opcode) &&
    list[i].operand != NoOperand && !list[i].operand.LocalOperand?
  }

  /** The distinct slot objects the list refers to. */
  function ReferencedLocals(list: seq<Instr>): set<LocalVar>
  {
    set i | 0 <= i < |list| && NamesLocal(list, i) :: list[i].operand.local
  }

  /** Two distinct slot objects share an index, so the dictionary keyed by
      `LocalIndex` cannot be built. */
  predicate ClashingLocals(list: seq<Instr>)
  {
    exists v, w :: v in ReferencedLocals(list) && w in ReferencedLocals(list) &&
                   v != w && v.index == w.index
  }

  /** The `Locals` table: every referenced slot, keyed by its index. */
  function BuildLocals(list: seq<Instr>): (r: Result<map<int, LocalVar>, Error>)
    ensures r.Ok? <==> (forall i :: !BadLocalOperand(list, i)) && !ClashingLocals(list)
    ensures r.Err? ==> r.error == (if exists i :: BadLocalOperand(list, i) then InvalidCast
                                   else DuplicateKey)
    ensures r.Ok? ==> forall i :: NamesLocal(list, i) ==>
                        var v := list[i].operand.local; v.index in r.value && r.value[v.index] == v
    ensures r.Ok? ==> forall k :: k in r.value ==>
                        r.value[k].index == k && exists i :: NamesLocal(list, i) && list[i].operand.local == r.value[k]
  {
    if exists i | 0 <= i < |list| :: BadLocalOperand(list, i) then Err(InvalidCast)
    else if ClashingLocals(list) then Err(DuplicateKey)
    else
      var vs := ReferencedLocals(list);
      Ok(map v | v in vs :: v.index := v)
  }

  /** The constructor: take the list, build the table of locals, and start
      with the index stack holding exactly `[0]`. */
  function Create(xs: seq<Instr>): (r: Result<Session, Error>)
    ensures r.Ok? <==> BuildLocals(xs).Ok?
    ensures r.Ok? ==> r.value.instrs == xs && r.value.stack == [0] && Top(r.value) == 0 &&
                      r.value.locals == BuildLocals(xs).value
    ensures r.Ok? ==> Flush(r.value).0 == xs
    ensures r.Err? ==> r.error == BuildLocals(xs).error
  {
    match BuildLocals(xs)
    case Err(e) => Err(e)
    case Ok(m) => Ok(Session(xs, [0], None, m))
  }

  // ------------------------------------------------------- backward search

  /** `FindLast` as written: reverse both the list and the pattern and map the
      hit back by the pattern's length. The guard `index < 0` only fires on an
      absent pattern when `Count + 1 - |p|` is negative. */
  function FindLastAsWritten(s: Session, p: Pattern): (r: Step)
    ensures r.Threw? ==> r == Threw(PatternNotFound, s)
    ensures (exists i :: MatchesAt(s.instrs, p, i)) ==> r == FindLast(s, p)
    ensures (forall i :: !MatchesAt(s.instrs, p, i)) ==>
              r == if |s.instrs| + 1 - |p| < 0 then Threw(PatternNotFound, s)
                   else Done(Push(s, |s.instrs| + 1 - |p|))
  {
    ReversedOccurrence(s.instrs, p);
    var index := |s.instrs| - IndexOf(Reverse(s.instrs), Reverse(p), 0) - |p|;
    if index < 0 then Threw(PatternNotFound, s) else Done(Push(s, index))
  }

  /** An absent two-instruction pattern in a two-instruction list: the newer
      `FindLast` pushes 1 instead of throwing. */
  lemma FindLastMissingPushesInside()
    ensures var a, b := Instr(OtherOp(1), NoOperand, []), Instr(OtherOp(2), NoOperand, []);
            var c, d := Instr(OtherOp(3), NoOperand, []), Instr(OtherOp(4), NoOperand, []);
            var s := Session([a, b], [0], None, map[]);
            FindLastAsWritten(s, [c, d]) == Done(Push(s, 1)) && FindLast(s, [c, d]).Threw?
  {
    var a, b := Instr(OtherOp(1), NoOperand, []), Instr(OtherOp(2), NoOperand, []);
    var c, d := Instr(OtherOp(3), NoOperand, []), Instr(OtherOp(4), NoOperand, []);
    assert !Matches([c, d][0], [a, b][0]);
    assert forall i :: !MatchesAt([a, b], [c, d], i);
  }

  /** `FindPrevious` as written: the reversed search starts `Count - CurrentIndex`
      from the far end; the guard `index >= Count` catches an absent pattern
      only when it is at most one instruction long. */
  function FindPreviousAsWritten(s: Session, p: Pattern): (r: Step)
    ensures !HasCursor(s) ==> r == Threw(NoCursor, s)
    ensures r.Threw? ==> r.s == s
    ensures HasCursor(s) && |p| > 0 && (exists i :: i + |p| <= Top(s) && MatchesAt(s.instrs, p, i)) ==>
              r == FindPrevious(s, p)
    ensures HasCursor(s) && (forall i :: i + |p| <= Top(s) ==> !MatchesAt(s.instrs, p, i)) ==>
              r == if |p| <= 1 then Threw(PatternNotFound, s)
                   else Done(Push(s, |s.instrs| + 1 - |p|))
  {
    if !HasCursor(s) then Threw(NoCursor, s)
    else
      ReversedOccurrence(s.instrs, p);
      var index := |s.instrs| - IndexOf(Reverse(s.instrs), Reverse(p), |s.instrs| - Top(s)) - |p|;
      if index >= |s.instrs| then Threw(PatternNotFound, s) else Done(Push(s, index))
  }

  /** The same two-instruction counterexample for `FindPrevious`, with the
      cursor on the last instruction. */
  lemma FindPreviousMissingPushesInside()
    ensures var a, b := Instr(OtherOp(1), NoOperand, []), Instr(OtherOp(2), NoOperand, []);
            var c, d := Instr(OtherOp(3), NoOperand, []), Instr(OtherOp(4), NoOperand, []);
            var s := Session([a, b], [0, 1], None, map[]);
            FindPreviousAsWritten(s, [c, d]) == Done(Push(s, 1)) && FindPrevious(s, [c, d]).Threw?
  {
    var a, b := Instr(OtherOp(1), NoOperand, []), Instr(OtherOp(2), NoOperand, []);
    var c, d := Instr(OtherOp(3), NoOperand, []), Instr(OtherOp(4), NoOperand, []);
    assert !Matches([c, d][0], [a, b][0]);
    assert forall i :: !MatchesAt([a, b], [c, d], i);
  }

  // ------------------------------------------------- insertion and appending

  /** The block with `ls` appended to the labels of its first instruction. */
  function LabelFirst(ls: seq<Label>, xs: seq<Instr>): (r: seq<Instr>)
    requires |xs| > 0
    ensures |r| == |xs| && r[1..] == xs[1..]
    ensures r[0] == xs[0].(labels := xs[0].labels + ls)
  {
    [xs[0].(labels := xs[0].labels + ls)] + xs[1..]
  }

  /** `InsertWithLabels`: label the first instruction of the block, then insert
      it like `InsertInstructions`. An empty block throws before anything else. */
  function InsertWithLabels(s: Session, ls: seq<Label>, xs: seq<Instr>): (r: Step)
    ensures |xs| == 0 ==> r == Threw(EmptyBlock, s)
    ensures |xs| > 0 ==> (r.Done? <==> HasCursor(s) && 0 <= Top(s) <= |s.instrs|)
    ensures r.Threw? ==> r.s == s
    ensures r.Done? ==> InsertedAt(s, LabelFirst(ls, xs), r.s)
    ensures r.Done? ==> r.s.stack == s.stack + [Top(s) + |xs|] &&
                        r.s.buffer == s.buffer && r.s.locals == s.locals &&
                        |r.s.instrs| == |s.instrs| + |xs| &&
                        r.s.instrs[..Top(s)] == s.instrs[..Top(s)] &&
                        r.s.instrs[Top(r.s)..] == s.instrs[Top(s)..]
    ensures r.Done? ==> var c := Top(s);
                        r.s.instrs[c].opcode == xs[0].opcode &&
                        r.s.instrs[c].operand == xs[0].operand &&
                        r.s.instrs[c].labels == xs[0].labels + ls &&
                        r.s.instrs[c + 1..c + |xs|] == xs[1..]
  {
    if |xs| == 0 then Threw(EmptyBlock, s)
    else
      var r := Insert(s, LabelFirst(ls, xs));
      InsertIsSplice(s, LabelFirst(ls, xs));
      assert r.Done? ==> r.s.instrs[Top(s)..Top(s) + |xs|] == LabelFirst(ls, xs);
      r
  }

  /** `AddInstructions` as written: append the block and push
      `LastIndex - |xs|`, which is the OLD last index, not the first appended one. */
  function AddInstructionsAsWritten(s: Session, xs: seq<Instr>): (r: Step)
    ensures r.Done? <==> |s.instrs| + |xs| > 0
    ensures r.Threw? ==> r == Threw(EmptyList, s)
    ensures r.Done? ==> r.s.instrs == s.instrs + xs && r.s.stack == s.stack + [|s.instrs| - 1]
    ensures r.Done? && |s.instrs| > 0 ==> r.s.instrs[Top(r.s)] == s.instrs[|s.instrs| - 1]
  {
    var list := s.instrs + xs;
    if |list| == 0 then Threw(EmptyList, s)
    else Done(s.(instrs := list, stack := s.stack + [|list| - 1 - |xs|]))
  }

  /** Appending `[b]` to `[a]` leaves the cursor on `a`, not on `b` as documented. */
  lemma AddInstructionsMissesBlock()
    ensures var a, b := Instr(OtherOp(1), NoOperand, []), Instr(OtherOp(2), NoOperand, []);
            var r := AddInstructionsAsWritten(Session([a], [0], None, map[]), [b]);
            r.Done? && Top(r.s) == 0 && r.s.instrs[Top(r.s)] == a && a != b
  {
  }

  /** `AddInstructions` as documented: append the block and push the index of
      its first instruction. The empty-list throw is kept from the source. */
  function AddInstructions(s: Session, xs: seq<Instr>): (r: Step)
    ensures r.Done? <==> |s.instrs| + |xs| > 0
    ensures r.Threw? ==> r == Threw(EmptyList, s)
    ensures r.Done? ==> HasCursor(r.s) && r.s == Push(s.(instrs := r.s.instrs), Top(r.s))
    ensures r.Done? ==> |r.s.instrs| == |s.instrs| + |xs| && Top(r.s) == |s.instrs| &&
                        r.s.instrs[..|s.instrs|] == s.instrs && r.s.instrs[Top(r.s)..] == xs
  {
    var list := s.instrs + xs;
    if |list| == 0 then Threw(EmptyList, s)
    else Done(s.(instrs := list, stack := s.stack + [|s.instrs|]))
  }

  /** `AddWithLabels` as written: label the first instruction of the block,
      append, and push `LastIndex - |xs|`, the OLD last index, as
      `AddInstructionsAsWritten` does. An empty block throws. */
  function AddWithLabelsAsWritten(s: Session, ls: seq<Label>, xs: seq<Instr>): (r: Step)
    ensures |xs| == 0 ==> r == Threw(EmptyBlock, s)
    ensures |xs| > 0 ==> r.Done? && r.s.stack == s.stack + [|s.instrs| - 1] &&
                         |r.s.instrs| == |s.instrs| + |xs| &&
                         r.s.instrs[..|s.instrs|] == s.instrs &&
                         r.s.instrs[|s.instrs|].labels == xs[0].labels + ls &&
                         r.s.instrs[|s.instrs| + 1..] == xs[1..]
    ensures |xs| > 0 ==> r.s == s.(instrs := s.instrs + LabelFirst(ls, xs), stack := s.stack + [|s.instrs| - 1])
    ensures r.Done? && |s.instrs| > 0 ==> r.s.instrs[Top(r.s)] == s.instrs[|s.instrs| - 1]
  {
    if |xs| == 0 then Threw(EmptyBlock, s)
    else
      var r := AddInstructionsAsWritten(s, LabelFirst(ls, xs));
      assert r.s.instrs[|s.instrs|..] == LabelFirst(ls, xs);
      r
  }

  /** Appending `[b]` to `[a]` with labels leaves the cursor on `a`, where the
      documented `AddWithLabels` puts it on the labelled `b`. */
  lemma AddWithLabelsMissesBlock()
    ensures var a := Instr(OtherOp(1), NoOperand, []);
            var b := Instr(OtherOp(2), NoOperand, []);
            var s := Session([a], [0], None, map[]);
            var r, q := AddWithLabelsAsWritten(s, [Label(0)], [b]), AddWithLabels(s, [Label(0)], [b]);
            r.Done? && Top(r.s) == 0 && r.s.instrs[0] == a &&
            q.Done? && Top(q.s) == 1 && q.s.instrs[1].opcode == b.opcode
  {
  }

  /** `AddWithLabels`: label the first instruction of the block, then append. */
  function AddWithLabels(s: Session, ls: seq<Label>, xs: seq<Instr>): (r: Step)
    ensures |xs| == 0 ==> r == Threw(EmptyBlock, s)
    ensures |xs| > 0 ==> r.Done?
    ensures r.Done? ==> HasCursor(r.s) && Top(r.s) == |s.instrs| &&
                        |r.s.instrs| == |s.instrs| + |xs| &&
                        r.s.instrs[..|s.instrs|] == s.instrs &&
                        r.s.instrs[Top(r.s)].labels == xs[0].labels + ls &&
                        r.s.instrs[Top(r.s)].opcode == xs[0].opcode &&
                        r.s.instrs[Top(r.s)].operand == xs[0].operand &&
                        r.s.instrs[Top(r.s) + 1..] == xs[1..]
    ensures r.Done? ==> r.s == s.(instrs := s.instrs + LabelFirst(ls, xs), stack := s.stack + [|s.instrs|])
  {
    if |xs| == 0 then Threw(EmptyBlock, s)
    else AddInstructions(s, LabelFirst(ls, xs))
  }

  /** With no labels, both versions of `AddWithLabels` are the matching
      versions of `AddInstructions` on a non-empty block. */
  lemma AddWithoutLabels(s: Session, xs: seq<Instr>)
    requires |xs| > 0
    ensures AddWithLabels(s, [], xs) == AddInstructions(s, xs)
    ensures AddWithLabelsAsWritten(s, [], xs) == AddInstructionsAsWritten(s, xs)
  {
    assert xs[0].labels + [] == xs[0].labels;
    assert LabelFirst([], xs) == [xs[0]] + xs[1..] == xs;
  }

  // ----------------------------------------------------------------- copies

  /** `GetInstructions(count, removeLabels, advance)`: hand back a copy of
      `count` instructions from the cursor, optionally stepping past them. */
  function GetInstructions(s: Session, count: int, removeLabels: bool, advance: bool): (r: Fetch<seq<Instr>>)
    ensures !HasCursor(s) ==> r == FetchThrew(NoCursor, s)
    ensures HasCursor(s) ==> (r.Fetched? <==> 0 <= Top(s) && 0 <= count && Top(s) + count <= |s.instrs|)
    ensures r.FetchThrew? ==> r.s == s
    ensures r.Fetched? ==> HasCursor(s) && 0 <= Top(s) && Top(s) + |r.value| <= |s.instrs| &&
                           CopyOf(r.value, s.instrs[Top(s)..Top(s) + |r.value|], removeLabels) &&
                           |r.value| == count
    ensures r.Fetched? ==> r.s == if advance then Push(s, Top(s) + count) else s
  {
    if !HasCursor(s) then FetchThrew(NoCursor, s)
    else
      var c := Top(s);
      if c < 0 || count < 0 || c + count > |s.instrs| then FetchThrew(BadRange, s)
      else Fetched(CopyBlock(s.instrs[c..c + count], removeLabels),
                   if advance then Push(s, c + count) else s)
  }

  /** `GetInstructionsUntil`: a copy of the instructions from the cursor up to
      and including the first instruction of the next occurrence of `p`. */
  function GetInstructionsUntil(s: Session, removeLabels: bool, advance: bool, p: Pattern): (r: Fetch<seq<Instr>>)
    ensures r.FetchThrew? ==> r.s == s
    ensures HasCursor(s) && 0 <= Top(s) && |p| > 0 ==>
              (r.Fetched? <==> exists i :: Top(s) < i && MatchesAt(s.instrs, p, i))
    ensures r.Fetched? ==>
              HasCursor(s) && |r.value| > 0 &&
              var m := Top(s) + |r.value| - 1;
              0 <= Top(s) < m < |s.instrs| &&
              FirstMatchFrom(s.instrs, p, Top(s) + 1, m) &&
              CopyOf(r.value, s.instrs[Top(s)..m + 1], removeLabels) &&
              r.s == if advance then Push(s, m + 1) else s
  {
    match FindNext(s, p)
    case Threw(e, _) => FetchThrew(e, s)
    case Done(t) =>
      var c, m := Top(s), Top(t);
      assert FirstMatchFrom(s.instrs, p, c + 1, m);
      if c < 0 || m + 1 > |s.instrs| then FetchThrew(BadRange, s)
      else
        var b := CopyBlock(s.instrs[c..m + 1], removeLabels);
        assert |b| == m + 1 - c && c + |b| - 1 == m;
        Fetched(b, if advance then Push(s, m + 1) else s)
  }

  // ----------------------------------------------------------------- labels

  /** `List.Remove`: drop the first occurrence of `l`, if any. */
  function RemoveFirst(xs: seq<Label>, l: Label): (r: seq<Label>)
    ensures multiset(r) == multiset(xs) - multiset{l}
    ensures l in xs ==> |r| == |xs| - 1
    ensures l !in xs ==> r == xs
  {
    if |xs| == 0 then []
    else
      assert xs == [xs[0]] + xs[1..];
      if xs[0] == l then xs[1..]
      else [xs[0]] + RemoveFirst(xs[1..], l)
  }

  /** Remove the first occurrence of each listed label in turn. */
  function RemoveEach(xs: seq<Label>, ls: seq<Label>): (r: seq<Label>)
    ensures multiset(r) == multiset(xs) - multiset(ls)
    decreases |ls|
  {
    if |ls| == 0 then xs
    else
      assert ls == [ls[0]] + ls[1..];
      RemoveEach(RemoveFirst(xs, ls[0]), ls[1..])
  }

  /** `RemoveLabels(labels)`: remove each listed label once from the cursor
      slot. With nothing listed the cursor is never read. */
  function RemoveLabelsListed(s: Session, ls: seq<Label>): (r: Step)
    ensures |ls| == 0 ==> r == Done(s)
    ensures |ls| > 0 ==> (r.Done? <==> OnInstr(s))
    ensures r.Threw? ==> r.s == s
    ensures r.Done? ==> r.s == s.(instrs := r.s.instrs)
    ensures r.Done? && |ls| > 0 ==>
              r.s.stack == s.stack && ChangedOnlyAt(s.instrs, r.s.instrs, Top(s)) &&
              var before, after := s.instrs[Top(s)], r.s.instrs[Top(s)];
              after.opcode == before.opcode && after.operand == before.operand &&
              multiset(after.labels) == multiset(before.labels) - multiset(ls)
  {
    if |ls| == 0 then Done(s)
    else UpdateAt(s, (x: Instr) => x.(labels := RemoveEach(x.labels, ls)))
  }

  /** Removing labels the slot carries once each is undone by adding them back
      (as a multiset: the order of the labels may change). */
  lemma {:induction false} AddThenRemoveLabels(s: Session, ls: seq<Label>)
    requires OnInstr(s) && |ls| > 0
    ensures RemoveLabelsListed(AddLabels(s, ls).s, ls).Done?
    ensures var t := RemoveLabelsListed(AddLabels(s, ls).s, ls).s;
            t.stack == s.stack && ChangedOnlyAt(s.instrs, t.instrs, Top(s)) &&
            multiset(t.instrs[Top(s)].labels) == multiset(s.instrs[Top(s)].labels)
  {
    var a := AddLabels(s, ls).s;
    assert OnInstr(a);
    var t := RemoveLabelsListed(a, ls).s;
    assert multiset(t.instrs[Top(s)].labels)
        == multiset(s.instrs[Top(s)].labels) + multiset(ls) - multiset(ls);
  }

  /** `StripLabels`: hand back the labels of the cursor slot and clear them. */
  function StripLabels(s: Session): (r: Fetch<seq<Label>>)
    ensures r.Fetched? <==> OnInstr(s)
    ensures r.FetchThrew? ==> r.s == s
    ensures r.Fetched? ==> r.value == s.instrs[Top(s)].labels
    ensures r.Fetched? ==> r.s == s.(instrs := r.s.instrs)
    ensures r.Fetched? ==> (forall l :: l in r.value <==> HasLabel(s.instrs, l, Top(s))) &&
                           r.s.stack == s.stack && ChangedOnlyAt(s.instrs, r.s.instrs, Top(s)) &&
                           r.s.instrs[Top(s)].labels == [] &&
                           r.s.instrs[Top(s)].opcode == s.instrs[Top(s)].opcode &&
                           r.s.instrs[Top(s)].operand == s.instrs[Top(s)].operand
  {
    match GetLabels(s)
    case Err(e) => FetchThrew(e, s)
    case Ok(ls) => Fetched(ls, ClearLabels(s).s)
  }

  /** Stripping the labels and adding the stripped labels back restores the session. */
  lemma {:induction false} StripThenAddLabels(s: Session)
    requires OnInstr(s)
    ensures StripLabels(s).Fetched?
    ensures AddLabels(StripLabels(s).s, StripLabels(s).value) == Done(s)
  {
    var c, x := Top(s), s.instrs[Top(s)];
    var r := StripLabels(s);
    assert r.value == x.labels;
    var t := AddLabels(r.s, r.value).s;
    assert t.instrs[c] == x.(labels := [] + x.labels);
    assert [] + x.labels == x.labels;
    assert t.instrs == s.instrs;
  }

  // -------------------------------------------------------------- iteration

  /** `TryMoveNext`: push the next occurrence of `p` after the cursor and
      answer whether there was one. */
  function TryMoveNext(s: Session, p: Pattern): (r: Fetch<bool>)
    ensures !HasCursor(s) ==> r == FetchThrew(NoCursor, s)
    ensures r.Fetched? ==> (r.value <==> exists i :: Top(s) < i && MatchesAt(s.instrs, p, i))
    ensures r.Fetched? && r.value ==> r.s == FindNext(s, p).s
    ensures r.Fetched? && !r.value ==> r.s == s
  {
    if !HasCursor(s) then FetchThrew(NoCursor, s)
    else
      var i := IndexOf(s.instrs, p, Top(s) + 1);
      if i < 0 then Fetched(false, s) else Fetched(true, Push(s, i))
  }

  /** How far the cursor is from the end of the list; the loop in `ForEach`
      terminates because it shrinks on every turn. */
  function Distance(s: Session): nat
  {
    if HasCursor(s) && Top(s) < |s.instrs| then |s.instrs| - Top(s) else 0
  }

  /** An action that, when it returns, keeps a cursor and does not move it
      further from the end of the list: it may rewrite, remove before the
      end, or insert at the cursor, but not step back. */
  predicate Tame(t: Session, r: Step)
  {
    r.Done? && HasCursor(t) ==>
      HasCursor(r.s) && |r.s.instrs| - Top(r.s) <= |t.instrs| - Top(t)
  }

  /** `ForEach(pattern, action)`: while `TryMoveNext` finds an occurrence,
      run the action there. An action that throws ends the loop with its
      exception. */
  function ForEach(s: Session, p: Pattern, action: Session -> Step): (r: Step)
    requires forall t :: Tame(t, action(t))
    ensures !HasCursor(s) ==> r == Threw(NoCursor, s)
    ensures r.Done? ==> HasCursor(r.s) &&
                        forall i :: Top(r.s) < i ==> !MatchesAt(r.s.instrs, p, i)
    decreases Distance(s)
  {
    match TryMoveNext(s, p)
    case FetchThrew(e, t) => Threw(e, t)
    case Fetched(found, t) =>
      if !found then Done(t)
      else
        match action(t)
        case Threw(e, u) => Threw(e, u)
        case Done(u) =>
          assert Tame(t, action(t));
          ForEach(u, p, action)
  }

  /** The action that does nothing. */
  function Idle(t: Session): (r: Step)
    ensures r == Done(t)
  {
    Done(t)
  }

  lemma IdleIsTame()
    ensures forall t :: Tame(t, Idle(t))
  {
  }

  /** One turn of `ForEach` with the action that does nothing. */
  lemma IdleTurn(s: Session, p: Pattern)
    requires HasCursor(s)
    ensures IndexOf(s.instrs, p, Top(s) + 1) == -1 ==> ForEach(s, p, Idle) == Done(s)
    ensures IndexOf(s.instrs, p, Top(s) + 1) != -1 ==>
              ForEach(s, p, Idle) == ForEach(Push(s, IndexOf(s.instrs, p, Top(s) + 1)), p, Idle)
  {
    IdleIsTame();
    var i := IndexOf(s.instrs, p, Top(s) + 1);
    if i == -1 {
      assert TryMoveNext(s, p) == Fetched(false, s);
    } else {
      assert TryMoveNext(s, p) == Fetched(true, Push(s, i));
      assert Idle(Push(s, i)) == Done(Push(s, i));
    }
  }

  /** The occurrences `ForEach` steps through from cursor `c`: each found by
      `IndexOf` after the previous one. */
  function Visits(list: seq<Instr>, p: Pattern, c: int): seq<int>
    decreases |list| - c
  {
    var i := IndexOf(list, p, c + 1);
    if i == -1 then [] else [i] + Visits(list, p, i)
  }

  /** The positions `Visits` steps through are exactly the occurrences after `c`. */
  lemma {:induction false} VisitsAreMatches(list: seq<Instr>, p: Pattern, c: int)
    ensures Visits(list, p, c) == MatchesFrom(list, p, c + 1)
    decreases |list| - c
  {
    MatchesFromFirst(list, p, c + 1);
    var i := IndexOf(list, p, c + 1);
    if i != -1 {
      VisitsAreMatches(list, p, i);
    }
  }

  /** One step of `Visits`. */
  lemma VisitsStep(list: seq<Instr>, p: Pattern, c: int, i: int)
    requires i == IndexOf(list, p, c + 1) && i != -1
    ensures Visits(list, p, c) == [i] + Visits(list, p, i)
  {
  }

  /** Pushing `i` and then `rest` is pushing `[i] + rest`. */
  lemma PushThenAppend(s: Session, i: int, rest: seq<int>)
    ensures Push(s, i).(stack := Push(s, i).stack + rest) == s.(stack := s.stack + ([i] + rest))
  {
    assert (s.stack + [i]) + rest == s.stack + ([i] + rest);
  }

  /** `ForEach` with the idle action leaves each visited position on the stack. */
  lemma {:induction false} IdleLoopPushesVisits(s: Session, p: Pattern)
    requires HasCursor(s)
    ensures ForEach(s, p, Idle) == Done(s.(stack := s.stack + Visits(s.instrs, p, Top(s))))
    decreases Distance(s)
  {
    IdleIsTame();
    var i := IndexOf(s.instrs, p, Top(s) + 1);
    if i == -1 {
      IdleTurn(s, p);
      assert s.(stack := s.stack + []) == s;
    } else {
      var u := Push(s, i);
      assert Distance(u) < Distance(s);
      IdleLoopPushesVisits(u, p);
      IdleTurn(s, p);
      VisitsStep(s.instrs, p, Top(s), i);
      PushThenAppend(s, i, Visits(s.instrs, p, i));
    }
  }

  /** With an action that does nothing, `ForEach` visits every occurrence of
      `p` after the cursor, in order, leaving each one on the index stack. */
  lemma ForEachVisitsEveryMatch(s: Session, p: Pattern)
    requires HasCursor(s)
    ensures ForEach(s, p, Idle) ==
              Done(s.(stack := s.stack + MatchesFrom(s.instrs, p, Top(s) + 1)))
  {
    IdleIsTame();
    IdleLoopPushesVisits(s, p);
    VisitsAreMatches(s.instrs, p, Top(s));
  }

  /** Stripping the cursor's labels and inserting a block with them moves the
      labels onto the block's first instruction: jumps that reached the old
      instruction now reach the block, and the cursor stays on the old
      instruction, now unlabelled. */
  lemma {:induction false} StripThenInsertMovesLabels(s: Session, xs: seq<Instr>)
    requires OnInstr(s) && |xs| > 0
    ensures StripLabels(s).Fetched?
    ensures var f := StripLabels(s);
            var r := InsertWithLabels(f.s, f.value, xs);
            var c, x := Top(s), s.instrs[Top(s)];
            r.Done? && Top(r.s) == c + |xs| &&
            r.s.instrs == s.instrs[..c] + LabelFirst(x.labels, xs) + [x.(labels := [])] + s.instrs[c + 1..]
  {
    var c, x := Top(s), s.instrs[Top(s)];
    var f := StripLabels(s);
    assert f.s.instrs[c] == x.(labels := []);
    assert f.s.instrs[..c] == s.instrs[..c];
    assert f.s.instrs[c..] == [x.(labels := [])] + s.instrs[c + 1..];
  }
}
