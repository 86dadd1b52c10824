/** The older editor (Common/Harmony/ILHelper.cs): an instance is reused
    across methods through `Attach`, keeps a copy buffer, searches backward
    with an un-reversed pattern, and carries canned blocks for profession
    checks and dice rolls. */
module LegacyEditor {
  import opened Outcomes
  import opened Instructions
  import opened Editor

  /** `Attach`: take `xs` as the working list and reset the index stack to
      exactly `[0]`. The copy buffer survives from the previous method. */
  function Attach(s: Session, xs: seq<Instr>): (r: Session)
    ensures r.instrs == xs && r.stack == [0] && Top(r) == 0
    ensures r.buffer == s.buffer
  {
    Session(xs, [0], s.buffer, s.locals)
  }

  /** Attaching and flushing at once hands back the attached list and leaves
      the list and the stack empty. */
  lemma AttachFlush(s: Session, xs: seq<Instr>)
    ensures Flush(Attach(s, xs)).0 == xs
    ensures Flush(Attach(s, xs)).1.instrs == [] && Flush(Attach(s, xs)).1.stack == []
  {
  }

  // ------------------------------------------------------- backward search

  /** `FindLast` as written: search the pattern, NOT reversed, in the
      reversed list, and map the hit back as if it were one instruction long.
      The not-found guard `index < 0` cannot fire when the pattern is absent;
      `FindLastAsWrittenFindsReversed` says what it finds when it is present. */
  function FindLastAsWritten(s: Session, p: Pattern): (r: Step)
    ensures r.Done? ==> HasCursor(r.s) && r.s == Push(s, Top(r.s))
    ensures r.Threw? ==> r == Threw(PatternNotFound, s)
    ensures (forall i :: !MatchesAt(s.instrs, Reverse(p), i)) ==>
              r == Done(Push(s, |s.instrs|))
  {
    var n := |s.instrs|;
    LastIndexOfReversed(s.instrs, p, n);
    var index := n - IndexOf(Reverse(s.instrs), p, 0) - 1;
    var k := LastIndexOf(s.instrs, Reverse(p), n);
    if k < 0 then
      assert index == n;
      Done(Push(s, index))
    else
      assert index == k + |p| - 1 && MatchesAt(s.instrs, Reverse(p), k);
      if index < 0 then Threw(PatternNotFound, s) else Done(Push(s, index))
  }

  /** When the reversed pattern occurs, the legacy `FindLast` lands on the
      LAST instruction of the last occurrence of the reversed pattern. */
  lemma FindLastAsWrittenFindsReversed(s: Session, p: Pattern)
    requires |p| > 0 && exists i :: MatchesAt(s.instrs, Reverse(p), i)
    ensures var r := FindLastAsWritten(s, p);
            r.Done? && LastMatchBefore(s.instrs, Reverse(p), |s.instrs|, Top(r.s) - |p| + 1)
  {
    var n := |s.instrs|;
    LastIndexOfReversed(s.instrs, p, n);
    var i :| MatchesAt(s.instrs, Reverse(p), i);
    assert i + |p| <= n;
  }

  /** For a single-instruction pattern that occurs, the legacy `FindLast`
      does what its name says: it agrees with the corrected `FindLast`. */
  lemma {:induction false} FindLastSingle(s: Session, t: Instr)
    requires exists i :: MatchesAt(s.instrs, [t], i)
    ensures FindLastAsWritten(s, [t]) == FindLast(s, [t])
  {
    assert Reverse([t]) == [t];
    FindLastAsWrittenFindsReversed(s, [t]);
    var r, q := FindLastAsWritten(s, [t]), FindLast(s, [t]);
    assert LastMatchBefore(s.instrs, [t], |s.instrs|, Top(r.s));
    assert LastMatchBefore(s.instrs, [t], |s.instrs|, Top(q.s));
  }

  /** The legacy `FindLast` on an absent pattern pushes `Count`, an index past
      the end, instead of throwing. */
  lemma FindLastMissingPushesCount()
    ensures var a, b := Instr(OtherOp(1), NoOperand, []), Instr(OtherOp(2), NoOperand, []);
            var s := Session([a], [0], None, map[]);
            FindLastAsWritten(s, [b]) == Done(Push(s, 1)) && FindLast(s, [b]).Threw?
  {
    var a, b := Instr(OtherOp(1), NoOperand, []), Instr(OtherOp(2), NoOperand, []);
    var s := Session([a], [0], None, map[]);
    assert Reverse([b]) == [b];
    assert !Matches([b][0], [a][0]);
    assert forall i :: !MatchesAt(s.instrs, Reverse([b]), i);
  }

  /** `FindPrevious` as written: like the legacy `FindLast`, but the reversed
      search starts at the reversed position of the cursor itself, so an
      occurrence ending AT the cursor is found; absent patterns push `Count`. */
  function FindPreviousAsWritten(s: Session, p: Pattern): (r: Step)
    ensures !HasCursor(s) ==> r == Threw(NoCursor, s)
    ensures r.Done? ==> HasCursor(s) && HasCursor(r.s) && r.s == Push(s, Top(r.s))
    ensures r.Threw? ==> r.s == s
    ensures HasCursor(s) && |p| > 0 &&
            (exists i :: i + |p| <= Top(s) + 1 && MatchesAt(s.instrs, Reverse(p), i)) ==>
              r.Done? && LastMatchBefore(s.instrs, Reverse(p), Top(s) + 1, Top(r.s) - |p| + 1)
    ensures HasCursor(s) && (forall i :: i + |p| <= Top(s) + 1 ==> !MatchesAt(s.instrs, Reverse(p), i)) ==>
              r == Done(Push(s, |s.instrs|))
  {
    if !HasCursor(s) then Threw(NoCursor, s)
    else
      LastIndexOfReversed(s.instrs, p, Top(s) + 1);
      var j := IndexOf(Reverse(s.instrs), p, |s.instrs| - Top(s) - 1);
      var index := |s.instrs| - j - 1;
      if index < 0 then Threw(PatternNotFound, s) else Done(Push(s, index))
  }

  /** The legacy `FindPrevious` on an absent pattern pushes `Count`. */
  lemma FindPreviousMissingPushesCount()
    ensures var a, b := Instr(OtherOp(1), NoOperand, []), Instr(OtherOp(2), NoOperand, []);
            var s := Session([a, a], [1], None, map[]);
            FindPreviousAsWritten(s, [b]) == Done(Push(s, 2)) && FindPrevious(s, [b]).Threw?
  {
    var a, b := Instr(OtherOp(1), NoOperand, []), Instr(OtherOp(2), NoOperand, []);
    var s := Session([a, a], [1], None, map[]);
    assert Reverse([b]) == [b];
    assert !Matches([b][0], [a, a][0]) && !Matches([b][0], [a, a][1]);
    assert forall i :: !MatchesAt(s.instrs, Reverse([b]), i);
  }

  // ------------------------------------------------------------ the buffer

  /** `ToBuffer(count, stripLabels, advance)`: copy `count` instructions from
      the cursor into the buffer without touching the list; with `advance`,
      push the index just past the copied range. */
  function ToBuffer(s: Session, count: int, stripLabels: bool, advance: bool): (r: Step)
    ensures r.Done? <==> HasCursor(s) && 0 <= Top(s) && 0 <= count && Top(s) + count <= |s.instrs|
    ensures r.Threw? ==> r.s == s
    ensures r.Done? ==> r.s.instrs == s.instrs && r.s.buffer.Some? &&
                        CopyOf(r.s.buffer.value, s.instrs[Top(s)..Top(s) + count], stripLabels)
    ensures r.Done? ==> r.s.stack == if advance then s.stack + [Top(s) + count] else s.stack
  {
    if !HasCursor(s) then Threw(NoCursor, s)
    else if Top(s) < 0 || count < 0 || Top(s) + count > |s.instrs| then Threw(BadRange, s)
    else
      var c := Top(s);
      var t := s.(buffer := Some(CopyBlock(s.instrs[c..c + count], stripLabels)));
      Done(if advance then Push(t, c + count) else t)
  }

  /** `ToBuffer` as written: the list `Clone` copies references, not
      instructions, so the buffer and the copied range are the same objects,
      and stripping the buffer's labels strips the list's labels too. */
  function ToBufferAsWritten(s: Session, count: int, stripLabels: bool, advance: bool): (r: Step)
    ensures r.Done? <==> ToBuffer(s, count, stripLabels, advance).Done?
    ensures r.Threw? ==> r.s == s
    ensures r.Done? ==> r.s.buffer == ToBuffer(s, count, stripLabels, advance).s.buffer &&
                        r.s.stack == ToBuffer(s, count, stripLabels, advance).s.stack
    ensures r.Done? ==> var c := Top(s);
                        |r.s.instrs| == |s.instrs| &&
                        r.s.instrs[c..c + count] == r.s.buffer.value &&
                        r.s.instrs[..c] == s.instrs[..c] &&
                        r.s.instrs[c + count..] == s.instrs[c + count..]
    ensures r.Done? && !stripLabels ==> r == ToBuffer(s, count, stripLabels, advance)
  {
    match ToBuffer(s, count, stripLabels, advance)
    case Threw(e, t) => Threw(e, t)
    case Done(t) =>
      var c := Top(s);
      var instrs := s.instrs[..c] + t.buffer.value + s.instrs[c + count..];
      assert !stripLabels ==> instrs == s.instrs by {
        if !stripLabels {
          assert s.instrs == s.instrs[..c] + s.instrs[c..c + count] + s.instrs[c + count..];
        }
      }
      Done(t.(instrs := instrs))
  }

  /** Copying a labelled instruction with `stripLabels` removes the label from
      the list itself, which the copy-only `ToBuffer` leaves alone. */
  lemma ToBufferStripsSource()
    ensures var x := Instr(OtherOp(1), NoOperand, [Label(0)]);
            var s := Session([x], [0], None, map[]);
            ToBufferAsWritten(s, 1, true, false).Done? &&
            ToBufferAsWritten(s, 1, true, false).s.instrs[0].labels == [] &&
            ToBuffer(s, 1, true, false).s.instrs == [x]
  {
    var x := Instr(OtherOp(1), NoOperand, [Label(0)]);
    var s := Session([x], [0], None, map[]);
    assert ToBufferAsWritten(s, 1, true, false).s.instrs[0..1] ==
           ToBufferAsWritten(s, 1, true, false).s.buffer.value;
  }

  /** `ToBufferUntil(stripLabels, advance, pattern)`, and with both flags
      false the one-argument `ToBufferUntil(pattern)`: copy from the cursor up
      to and including the first instruction of the next occurrence of `p`;
      with `advance`, push the index just past the copied range. */
  function ToBufferUntil(s: Session, stripLabels: bool, advance: bool, p: Pattern): (r: Step)
    ensures HasCursor(s) && 0 <= Top(s) && |p| > 0 ==>
              (r.Done? <==> exists i :: Top(s) < i && MatchesAt(s.instrs, p, i))
    ensures r.Threw? ==> r.s == s
    ensures r.Done? ==>
              HasCursor(s) && r.s.instrs == s.instrs && r.s.buffer.Some? &&
              var m := Top(s) + |r.s.buffer.value| - 1;
              0 <= Top(s) < m < |s.instrs| &&
              FirstMatchFrom(s.instrs, p, Top(s) + 1, m) &&
              CopyOf(r.s.buffer.value, s.instrs[Top(s)..m + 1], stripLabels) &&
              r.s.stack == if advance then s.stack + [m + 1] else s.stack
  {
    match FindNext(s, p)
    case Threw(e, _) => Threw(e, s)
    case Done(t) =>
      var c, end := Top(s), Top(t) + 1;
      if c < 0 || end > |s.instrs| then Threw(BadRange, s)
      else
        var u := s.(buffer := Some(CopyBlock(s.instrs[c..end], stripLabels)));
        Done(if advance then Push(u, end) else u)
  }

  /** `ToBufferUntil` as written: the buffer is a shallow `Clone` of the range,
      so with `stripLabels` the copied range of the list loses its labels as
      well. Everything else is as in `ToBufferUntil`. */
  function ToBufferUntilAsWritten(s: Session, stripLabels: bool, advance: bool, p: Pattern): (r: Step)
    ensures r.Threw? ==> r.s == s
    ensures r.Done? ==> r.s.buffer.Some? && HasCursor(s) && var c, n := Top(s), |r.s.buffer.value|;
                        |r.s.instrs| == |s.instrs| && 0 <= c && c + n <= |s.instrs| &&
                        r.s.instrs[c..c + n] == r.s.buffer.value &&
                        r.s.instrs[..c] == s.instrs[..c] &&
                        r.s.instrs[c + n..] == s.instrs[c + n..]
  {
    match FindNext(s, p)
    case Threw(e, _) => Threw(e, s)
    case Done(t) =>
      var c, end := Top(s), Top(t) + 1;
      if c < 0 || end > |s.instrs| then Threw(BadRange, s)
      else
        var b := CopyBlock(s.instrs[c..end], stripLabels);
        assert !stripLabels ==> s.instrs[..c] + b + s.instrs[end..] == s.instrs by {
          if !stripLabels {
            assert s.instrs == s.instrs[..c] + s.instrs[c..end] + s.instrs[end..];
          }
        }
        var u := s.(instrs := s.instrs[..c] + b + s.instrs[end..], buffer := Some(b));
        Done(if advance then Push(u, end) else u)
  }

  /** The as-written copy succeeds and fails exactly when `ToBufferUntil`
      does, fills the same buffer and leaves the same stack; without
      `stripLabels` the two agree outright. */
  lemma ToBufferUntilAsWrittenAgrees(s: Session, stripLabels: bool, advance: bool, p: Pattern)
    ensures var r, q := ToBufferUntilAsWritten(s, stripLabels, advance, p),
                        ToBufferUntil(s, stripLabels, advance, p);
            (r.Done? <==> q.Done?) && (r.Threw? ==> r == q) &&
            (r.Done? ==> r.s.buffer == q.s.buffer && r.s.stack == q.s.stack) &&
            (!stripLabels ==> r == q)
  {
  }

  /** Copying `[a, b]` up to the pattern `[b]` with `stripLabels` removes the
      label of `a` from the list itself; the copy-only `ToBufferUntil` keeps it. */
  lemma ToBufferUntilStripsSource()
    ensures var a := Instr(OtherOp(1), NoOperand, [Label(0)]);
            var b := Instr(OtherOp(2), NoOperand, []);
            var s := Session([a, b], [0], None, map[]);
            ToBufferUntilAsWritten(s, true, false, [b]).Done? &&
            ToBufferUntilAsWritten(s, true, false, [b]).s.instrs[0].labels == [] &&
            ToBufferUntil(s, true, false, [b]).s.instrs == [a, b]
  {
    var a := Instr(OtherOp(1), NoOperand, [Label(0)]);
    var b := Instr(OtherOp(2), NoOperand, []);
    var s := Session([a, b], [0], None, map[]);
    assert MatchesAt(s.instrs, [b], 1);
    var r := ToBufferUntilAsWritten(s, true, false, [b]);
    assert r.s.instrs[0..2] == r.s.buffer.value;
  }

  /** `InsertBuffer()`: insert the buffer contents at the cursor. */
  function InsertBuffer(s: Session): (r: Step)
    ensures r.Done? <==> s.buffer.Some? && HasCursor(s) && 0 <= Top(s) <= |s.instrs|
    ensures s.buffer.None? ==> r == Threw(NoBuffer, s)
    ensures r.Threw? ==> r.s == s
    ensures r.Done? ==> InsertedAt(s, s.buffer.value, r.s)
    ensures r.Done? ==> |r.s.instrs| == |s.instrs| + |s.buffer.value| &&
                        r.s.instrs[Top(s)..Top(s) + |s.buffer.value|] == s.buffer.value &&
                        HasCursor(r.s) && Top(r.s) == Top(s) + |s.buffer.value|
  {
    match s.buffer
    case None => Threw(NoBuffer, s)
    case Some(b) => InsertIsSplice(s, b); Insert(s, b)
  }

  /** `InsertBuffer(index, length)`: insert a slice of the buffer. */
  function InsertBufferRange(s: Session, index: int, length: int): (r: Step)
    ensures r.Done? <==> s.buffer.Some? && 0 <= index && 0 <= length &&
                         index + length <= |s.buffer.value| &&
                         HasCursor(s) && 0 <= Top(s) <= |s.instrs|
    ensures r.Threw? ==> r.s == s
    ensures r.Done? ==> InsertedAt(s, s.buffer.value[index..index + length], r.s)
    ensures r.Done? ==> |r.s.instrs| == |s.instrs| + length &&
                        r.s.instrs[Top(s)..Top(s) + length] == s.buffer.value[index..index + length] &&
                        HasCursor(r.s) && Top(r.s) == Top(s) + length
  {
    match s.buffer
    case None => Threw(NoBuffer, s)
    case Some(b) =>
      if index < 0 || length < 0 || index + length > |b| then Threw(BadRange, s)
      else InsertIsSplice(s, b[index..index + length]); Insert(s, b[index..index + length])
  }

  /** Inserting the slice that spans the whole buffer is inserting the buffer. */
  lemma InsertWholeBufferRange(s: Session)
    requires s.buffer.Some?
    ensures InsertBufferRange(s, 0, |s.buffer.value|) == InsertBuffer(s)
  {
    assert s.buffer.value[0..|s.buffer.value|] == s.buffer.value;
  }

  /** Copying a range with `advance` and inserting the buffer duplicates the
      range in place: the copy lands right after the original. */
  lemma {:induction false} CopyThenInsertDuplicates(s: Session, count: int)
    requires OnInstr(s) && 0 <= count && Top(s) + count <= |s.instrs|
    ensures ToBuffer(s, count, false, true).Done?
    ensures InsertBuffer(ToBuffer(s, count, false, true).s).Done?
    ensures var c := Top(s);
            InsertBuffer(ToBuffer(s, count, false, true).s).s.instrs ==
              s.instrs[..c + count] + s.instrs[c..c + count] + s.instrs[c + count..]
  {
    var c := Top(s);
    var t := ToBuffer(s, count, false, true).s;
    assert t.buffer == Some(s.instrs[c..c + count]);
    assert Top(t) == c + count;
    var u := InsertBuffer(t).s;
    assert u.instrs == t.instrs[..c + count] + s.instrs[c..c + count] + t.instrs[c + count..];
  }

  // ------------------------------------------------------ removal to label

  /** `RemoveUntilLabel`: find the next instruction carrying `l` (push), pop
      it again, and delete from the cursor up to and including it. */
  function RemoveUntilLabel(s: Session, l: Label): (r: Step)
    ensures HasCursor(s) && 0 <= Top(s) ==>
              (r.Done? <==> exists i :: Top(s) < i && HasLabel(s.instrs, l, i))
    ensures r.Threw? ==> r.s == s
    ensures r.Done? ==>
              HasCursor(s) && r.s.stack == s.stack &&
              var m := Top(s) + |s.instrs| - |r.s.instrs| - 1;
              0 <= Top(s) < m < |s.instrs| && HasLabel(s.instrs, l, m) &&
              (forall j :: Top(s) < j < m ==> !HasLabel(s.instrs, l, j)) &&
              r.s.instrs == s.instrs[..Top(s)] + s.instrs[m + 1..]
  {
    match FindLabel(s, l, true)
    case Threw(e, _) => Threw(e, s)
    case Done(t) =>
      var c, m := Top(s), Top(t);
      if c < 0 then Threw(BadRange, s)
      else Done(s.(instrs := s.instrs[..c] + s.instrs[m + 1..]))
  }

  /** `AdvanceToLast`: push `LastIndex`. */
  function AdvanceToLast(s: Session): (r: Step)
    ensures r.Done? <==> |s.instrs| > 0
    ensures r.Done? ==> r.s == Push(s, |s.instrs| - 1)
    ensures r.Threw? ==> r == Threw(EmptyList, s)
  {
    if |s.instrs| == 0 then Threw(EmptyList, s) else GoTo(s, |s.instrs| - 1)
  }

  // ------------------------------------------------ canned instruction blocks

  /** `LoadConstantIntIL` as written: the operand-free short forms for 0..8,
      `ldc.i4.s n` for everything else. */
  function LoadConstantInt(n: int): (r: Instr)
    ensures r.labels == []
    ensures r.operand == NoOperand <==> 0 <= n <= 8
    ensures -128 <= n <= 127 ==> LoadedValue(r) == Some(n)
    ensures !(-128 <= n <= 127) ==> LoadedValue(r) == None
  {
    match n
    case 0 => Instr(Ldc_I4_0, NoOperand, [])
    case 1 => Instr(Ldc_I4_1, NoOperand, [])
    case 2 => Instr(Ldc_I4_2, NoOperand, [])
    case 3 => Instr(Ldc_I4_3, NoOperand, [])
    case 4 => Instr(Ldc_I4_4, NoOperand, [])
    case 5 => Instr(Ldc_I4_5, NoOperand, [])
    case 6 => Instr(Ldc_I4_6, NoOperand, [])
    case 7 => Instr(Ldc_I4_7, NoOperand, [])
    case 8 => Instr(Ldc_I4_8, NoOperand, [])
    case _ => Instr(Ldc_I4_S, IntOperand(n), [])
  }

  /** A constant outside the signed-byte range is emitted with the short
      form, whose operand cannot hold it. */
  lemma LoadConstantIntTooWide()
    ensures LoadConstantInt(200) == Instr(Ldc_I4_S, IntOperand(200), [])
    ensures LoadedValue(LoadConstantInt(200)) == None
  {
  }

  /** The constant load the legacy helper evidently intends: the long form
      `ldc.i4` where the short one cannot hold the value. */
  function LoadConstantIntFixed(n: int): (r: Instr)
    ensures r.labels == []
    ensures IsInt32(n) ==> LoadedValue(r) == Some(n)
    ensures -128 <= n <= 127 ==> r == LoadConstantInt(n)
  {
    if -128 <= n <= 127 then LoadConstantInt(n) else Instr(Ldc_I4, IntOperand(n), [])
  }

  /** Branches taken when the tested value is true. */
  predicate BranchesOnTrue(op: Opcode)
  {
    op == Brtrue || op == Brtrue_S
  }

  /** Branches with a 32-bit rather than an 8-bit offset. */
  predicate LongForm(op: Opcode)
  {
    op == Brtrue || op == Brfalse
  }

  /** The branch opcode chosen by `InsertProfessionCheck*`. */
  function BranchOpcode(useBrtrue: bool, useLongFormBranch: bool): (r: Opcode)
    ensures r in {Brtrue, Brtrue_S, Brfalse, Brfalse_S}
    ensures BranchesOnTrue(r) == useBrtrue
    ensures LongForm(r) == useLongFormBranch
  {
    if useBrtrue && useLongFormBranch then Brtrue
    else if useBrtrue then Brtrue_S
    else if useLongFormBranch then Brfalse
    else Brfalse_S
  }

  /** The body of a `professions.Contains(which)` test, which is also the
      pattern `FindProfessionCheck` searches. */
  function ProfessionCheckPattern(which: int): Pattern
  {
    [ Instr(Ldfld, MemberOperand(ProfessionsField), []),
      LoadConstantInt(which),
      Instr(Callvirt, MemberOperand(ContainsMethod), []) ]
  }

  lemma PatternMatchesItself(list: seq<Instr>, p: Pattern, i: int)
    requires 0 <= i && i + |p| <= |list| && list[i..i + |p|] == p
    ensures MatchesAt(list, p, i)
  {
    forall k | 0 <= k < |p| ensures Matches(p[k], list[i + k]) {
      assert list[i + k] == list[i..i + |p|][k];
    }
  }

  /** `FindProfessionCheck(which, fromCurrentIndex)`. */
  function FindProfessionCheck(s: Session, which: int, fromCurrent: bool): (r: Step)
    ensures !fromCurrent ==>
              (r.Done? <==> exists i :: MatchesAt(s.instrs, ProfessionCheckPattern(which), i))
    ensures fromCurrent && HasCursor(s) ==>
              (r.Done? <==> exists i :: Top(s) < i && MatchesAt(s.instrs, ProfessionCheckPattern(which), i))
    ensures r.Done? ==> HasCursor(r.s) && r.s == Push(s, Top(r.s)) &&
                        MatchesAt(s.instrs, ProfessionCheckPattern(which), Top(r.s))
    ensures r.Done? ==> (fromCurrent ==> HasCursor(s)) &&
                        FirstMatchFrom(s.instrs, ProfessionCheckPattern(which),
                                       if fromCurrent then Top(s) + 1 else 0, Top(r.s))
  {
    if fromCurrent then FindNext(s, ProfessionCheckPattern(which))
    else FindFirst(s, ProfessionCheckPattern(which))
  }

  /** `InsertProfessionCheckForLocalPlayer`: insert `Game1.player`, the
      profession test and a branch to `dest`; the cursor ends after the block. */
  function InsertProfessionCheckForLocalPlayer(
    s: Session, which: int, dest: Label, useBrtrue: bool, useLongFormBranch: bool): (r: Step)
    ensures r.Done? <==> HasCursor(s) && 0 <= Top(s) <= |s.instrs|
    ensures r.Done? ==>
              InsertedAt(s, [Instr(Call, MemberOperand(PlayerGetter), [])] + ProfessionCheckPattern(which) +
                            [Instr(BranchOpcode(useBrtrue, useLongFormBranch), LabelOperand(dest), [])], r.s)
    ensures r.Done? ==>
              |r.s.instrs| == |s.instrs| + 5 && HasCursor(r.s) && Top(r.s) == Top(s) + 5 &&
              r.s.instrs[Top(s)] == Instr(Call, MemberOperand(PlayerGetter), []) &&
              MatchesAt(r.s.instrs, ProfessionCheckPattern(which), Top(s) + 1) &&
              r.s.instrs[Top(s) + 4] ==
                Instr(BranchOpcode(useBrtrue, useLongFormBranch), LabelOperand(dest), [])
  {
    var block := [Instr(Call, MemberOperand(PlayerGetter), [])] + ProfessionCheckPattern(which) +
                 [Instr(BranchOpcode(useBrtrue, useLongFormBranch), LabelOperand(dest), [])];
    var r := Insert(s, block);
    InsertIsSplice(s, block);
    if r.Done? then
      assert r.s.instrs[Top(s) + 1..Top(s) + 4] == ProfessionCheckPattern(which) by {
        assert r.s.instrs[Top(s)..Top(s) + 5] == block;
      }
      PatternMatchesItself(r.s.instrs, ProfessionCheckPattern(which), Top(s) + 1);
      r
    else r
  }

  /** `InsertProfessionCheckForPlayerOnStack`: the same test for the player
      already on the evaluation stack. */
  function InsertProfessionCheckForPlayerOnStack(
    s: Session, which: int, dest: Label, useBrtrue: bool, useLongFormBranch: bool): (r: Step)
    ensures r.Done? <==> HasCursor(s) && 0 <= Top(s) <= |s.instrs|
    ensures r.Done? ==>
              InsertedAt(s, ProfessionCheckPattern(which) +
                            [Instr(BranchOpcode(useBrtrue, useLongFormBranch), LabelOperand(dest), [])], r.s)
    ensures r.Done? ==>
              |r.s.instrs| == |s.instrs| + 4 && HasCursor(r.s) && Top(r.s) == Top(s) + 4 &&
              MatchesAt(r.s.instrs, ProfessionCheckPattern(which), Top(s)) &&
              r.s.instrs[Top(s) + 3] ==
                Instr(BranchOpcode(useBrtrue, useLongFormBranch), LabelOperand(dest), [])
  {
    var block := ProfessionCheckPattern(which) +
                 [Instr(BranchOpcode(useBrtrue, useLongFormBranch), LabelOperand(dest), [])];
    var r := Insert(s, block);
    InsertIsSplice(s, block);
    if r.Done? then
      assert r.s.instrs[Top(s)..Top(s) + 3] == ProfessionCheckPattern(which) by {
        assert r.s.instrs[Top(s)..Top(s) + 4] == block;
      }
      PatternMatchesItself(r.s.instrs, ProfessionCheckPattern(which), Top(s));
      r
    else r
  }

  /** `InsertDiceRoll()`: insert `Game1.random.NextDouble()`. */
  function InsertDiceRoll(s: Session): (r: Step)
    ensures r.Done? <==> HasCursor(s) && 0 <= Top(s) <= |s.instrs|
    ensures r.Done? ==> InsertedAt(s, [Instr(Ldsfld, MemberOperand(RandomField), []),
                                       Instr(Callvirt, MemberOperand(NextDoubleMethod), [])], r.s)
    ensures r.Done? ==> |r.s.instrs| == |s.instrs| + 2 && HasCursor(r.s) && Top(r.s) == Top(s) + 2 &&
                        r.s.instrs[Top(s)].operand == MemberOperand(RandomField) &&
                        r.s.instrs[Top(s) + 1].operand == MemberOperand(NextDoubleMethod)
  {
    var block := [Instr(Ldsfld, MemberOperand(RandomField), []),
                  Instr(Callvirt, MemberOperand(NextDoubleMethod), [])];
    InsertIsSplice(s, block);
    Insert(s, block)
  }

  /** `InsertDiceRoll(minValue, maxValue)`: insert `Game1.random.Next(minValue,
      maxValue + 1)`, whose exclusive upper bound makes `maxValue` inclusive.
      The `+ 1` is 32-bit arithmetic and wraps at `int.MaxValue`. */
  function InsertDiceRollRange(s: Session, minValue: int, maxValue: int): (r: Step)
    ensures r.Done? <==> HasCursor(s) && 0 <= Top(s) <= |s.instrs|
    ensures r.Done? ==> InsertedAt(s, [Instr(Ldsfld, MemberOperand(RandomField), []),
                                       LoadConstantInt(minValue),
                                       LoadConstantInt(Wrap32(maxValue + 1)),
                                       Instr(Callvirt, MemberOperand(NextMethod), [])], r.s)
    ensures r.Done? && -128 <= minValue <= 127 ==> LoadedValue(r.s.instrs[Top(s) + 1]) == Some(minValue)
    ensures r.Done? && -129 <= maxValue <= 126 ==>
              LoadedValue(r.s.instrs[Top(s) + 2]) == Some(maxValue + 1)
    ensures r.Done? ==> |r.s.instrs| == |s.instrs| + 4 && HasCursor(r.s) && Top(r.s) == Top(s) + 4 &&
                        r.s.instrs[Top(s)].operand == MemberOperand(RandomField) &&
                        r.s.instrs[Top(s) + 1] == LoadConstantInt(minValue) &&
                        r.s.instrs[Top(s) + 3].operand == MemberOperand(NextMethod)
    ensures r.Done? && IsInt32(maxValue) && maxValue < 0x7FFF_FFFF ==>
              r.s.instrs[Top(s) + 2] == LoadConstantInt(maxValue + 1)
    ensures r.Done? && maxValue == 0x7FFF_FFFF ==>
              r.s.instrs[Top(s) + 2] == LoadConstantInt(-0x8000_0000)
  {
    var block := [Instr(Ldsfld, MemberOperand(RandomField), []),
                  LoadConstantInt(minValue),
                  LoadConstantInt(Wrap32(maxValue + 1)),
                  Instr(Callvirt, MemberOperand(NextMethod), [])];
    InsertIsSplice(s, block);
    Insert(s, block)
  }

  /** Both dice rolls are undone by stepping back over the inserted block
      and removing it: the list is as before. */
  lemma {:induction false} DiceRollsUndone(s: Session, minValue: int, maxValue: int)
    requires OnInstr(s)
    ensures InsertDiceRoll(s).Done? && Retreat(InsertDiceRoll(s).s, 2).Done? &&
            Remove(Retreat(InsertDiceRoll(s).s, 2).s, 2).s.instrs == s.instrs
    ensures var a := InsertDiceRollRange(s, minValue, maxValue);
            a.Done? && Retreat(a.s, 4).Done? && Remove(Retreat(a.s, 4).s, 4).s.instrs == s.instrs
  {
    InsertRetreatRemove(s, [Instr(Ldsfld, MemberOperand(RandomField), []),
                            Instr(Callvirt, MemberOperand(NextDoubleMethod), [])]);
    InsertRetreatRemove(s, [Instr(Ldsfld, MemberOperand(RandomField), []),
                            LoadConstantInt(minValue),
                            LoadConstantInt(Wrap32(maxValue + 1)),
                            Instr(Callvirt, MemberOperand(NextMethod), [])]);
  }
}
